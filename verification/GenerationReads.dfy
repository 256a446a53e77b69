/**
  When readers return. The protocol says what a returning reader has read; this module says that a
  reader does return while one word stays in effect, and what has happened when it does not.
*/
module GenerationReads {
  import opened GenerationProtocol
  import opened Options

  /** The actions of process `p` among those of all processes. */
  ghost function Own<C>(actions: seq<Action<C>>, p: Pid): seq<Action<C>>
    decreases |actions|
  {
    if actions == [] then []
    else (if !actions[0].Expire? && actions[0].p == p then [actions[0]] else []) + Own(actions[1..], p)
  }

  /** One GET of the word: the published key alone, or the legacy revision as well when that key is absent. */
  ghost function Gets<C>(s: State<C>, p: Pid): seq<Action<C>> {
    if s.published.Some? then [Get(p)] else [Get(p), Get(p)]
  }

  // ----- While one word stays in effect -----

  /** The word in effect, where it is stored, and its slot. */
  datatype Rest<+C> = Rest(word: Option<Word>, direct: bool, version: Version<C>)

  ghost predicate Calm<C>(s: State<C>, r: Rest<C>) {
    && Invariant(s)
    && EffectiveWord(s) == r.word && s.published.Some? == r.direct
    && s.slots.At(GenerationOf(r.word)) == r.version
    && (r.word.Some? ==> !Returns(s, r.word.value))
  }

  ghost function RestOf<C>(s: State<C>): Rest<C> {
    Rest(EffectiveWord(s), s.published.Some?, s.slots.At(GenerationOf(EffectiveWord(s))))
  }

  /** Every action finds the same word in effect, and process `p` finds no lock. */
  ghost predicate Steady<C>(s: State<C>, actions: seq<Action<C>>, p: Pid, r: Rest<C>)
    decreases |actions|
  {
    actions == [] || (Calm(s, r) && (actions[0] == CheckLock(p) ==> s.lock.None?) && Steady(Step(s, actions[0]), actions[1..], p, r))
  }

  /** No check of process `p` finds a lock. */
  ghost predicate FindsNoLock<C>(s: State<C>, actions: seq<Action<C>>, p: Pid) {
    forall k :: 0 <= k < |actions| && actions[k] == CheckLock(p) ==> Run(s, actions[..k]).lock.None?
  }

  lemma CalmStays<C>(s: State<C>, a: Action<C>, r: Rest<C>)
    requires Calm(s, r) && EffectiveWord(Step(s, a)) == r.word
    ensures Calm(Step(s, a), r)
  {
    StepKeepsInvariant(s, a);
    WordsMove(s, a);
    NothingOldBecomesPending(s, a);
    PublishedSlotIsFrozen(s, a);
    hide Invariant, Step, Pending;
  }

  lemma {:induction false} SomeWordStays<C>(s: State<C>, actions: seq<Action<C>>)
    requires Invariant(s) && EffectiveWord(s).Some?
    ensures EffectiveWord(Run(s, actions)).Some?
    decreases |actions|
  {
    if actions != [] {
      WordsMove(s, actions[0]);
      StepKeepsInvariant(s, actions[0]);
      hide Invariant, Step;
      SomeWordStays(Step(s, actions[0]), actions[1..]);
    }
  }

  /** What is in effect before and after a run, and could not return, is in effect after its first action. */
  lemma InEffectAtOnce<C>(s: State<C>, actions: seq<Action<C>>, r: Rest<C>)
    requires Calm(s, r) && actions != [] && EffectiveWord(Run(s, actions)) == r.word
    ensures EffectiveWord(Step(s, actions[0])) == r.word
  {
    var t := Step(s, actions[0]);
    StepKeepsInvariant(s, actions[0]);
    if EffectiveWord(t) != r.word {
      if r.word.None? {
        SomeWordStays(t, actions[1..]);
      } else {
        EffectiveSlotIsFrozen(s, actions[0], r.word.value);
        ReplacedWordIsGone(t, actions[1..], r.word.value);
      }
      assert false;
    }
  }

  lemma {:induction false} StaysSteady<C>(s: State<C>, actions: seq<Action<C>>, p: Pid, r: Rest<C>)
    requires Calm(s, r) && actions != [] && EffectiveWord(Run(s, actions[..|actions| - 1])) == r.word
    requires FindsNoLock(s, actions, p)
    ensures Steady(s, actions, p, r)
    decreases |actions|
  {
    assert actions[..0] == [] && Run(s, actions[..0]) == s;
    if |actions| > 1 {
      var front, rest := actions[..|actions| - 1], actions[1..];
      InEffectAtOnce(s, front, r);
      CalmStays(s, actions[0], r);
      assert front[1..] == rest[..|rest| - 1];
      forall k | 0 <= k < |rest| && rest[k] == CheckLock(p)
        ensures Run(Step(s, actions[0]), rest[..k]).lock.None?
      {
        assert actions[..k + 1][1..] == rest[..k] && actions[k + 1] == rest[k];
      }
      hide Calm, Step;
      StaysSteady(Step(s, actions[0]), rest, p, r);
    }
  }

  // ----- What a reader does meanwhile -----

  /** A reader that has seen nothing but the resting word and slot. */
  ghost predicate Follows<C>(q: Process<C>, r: Rest<C>) {
    match q
    case PinnedStart => true
    case PinnedStartFallback => !r.direct
    case Pinned(w, begun, _) => r.word == Some(w) && begun == r.version
    case PinnedEndFallback(w, begun, _) => r.word == Some(w) && begun == r.version && !r.direct
    case LiveStart => true
    case LiveStartFallback => !r.direct
    case LiveLocked(view) => OnRest(view, r)
    case Live(view) => OnRest(view, r)
    case LiveResolveFallback(view) => OnRest(view, r) && !r.direct
    case LiveEnd(view) => OnRest(view, r)
    case LiveEndFallback(view) => OnRest(view, r) && !r.direct
    case _ => q.PinnedDone? || q.LiveDone? || q.Finished?
  }

  ghost predicate OnRest<C>(view: View<C>, r: Rest<C>) {
    view.word == r.word && !view.exposed && view.begun == r.version && view.resolved <= {GenerationOf(r.word)}
  }

  ghost function NextGet<C>(q: Process<C>, r: Rest<C>): Process<C> {
    match q
    case PinnedStart =>
      if !r.direct then PinnedStartFallback else if r.word.Some? then Pinned(r.word.value, r.version, []) else Finished
    case PinnedStartFallback => if r.word.Some? then Pinned(r.word.value, r.version, []) else Finished
    case Pinned(w, begun, seen) => if r.direct then PinnedDone(w, begun, seen, r.version) else PinnedEndFallback(w, begun, seen)
    case PinnedEndFallback(w, begun, seen) => PinnedDone(w, begun, seen, r.version)
    case LiveStart => if r.direct then LiveLocked(View(r.word, false, r.version, {}, [])) else LiveStartFallback
    case LiveStartFallback => LiveLocked(View(r.word, false, r.version, {}, []))
    case Live(view) =>
      if r.direct then Live(view.(resolved := view.resolved + {GenerationOf(r.word)})) else LiveResolveFallback(view)
    case LiveResolveFallback(view) => Live(view.(resolved := view.resolved + {GenerationOf(r.word)}))
    case LiveEnd(view) => if r.direct then LiveDone(view, r.version) else LiveEndFallback(view)
    case LiveEndFallback(view) => LiveDone(view, r.version)
    case _ => q
  }

  ghost function Next<C>(q: Process<C>, a: Action<C>, r: Rest<C>): Process<C> {
    match a
    case Get(_) => NextGet(q, r)
    case Read(_, g) =>
      (match q
       case Pinned(w, begun, seen) => Pinned(w, begun, seen + [r.version])
       case Live(view) => if g in view.resolved then Live(view.(seen := view.seen + [Observation(g, r.version)])) else q
       case _ => q)
    case CheckLock(_) =>
      (match q
       case LiveLocked(view) => Live(view)
       case Live(view) => LiveEnd(view)
       case _ => q)
    case Crash(_) => Finished
    case _ => q
  }

  ghost function After<C>(q: Process<C>, own: seq<Action<C>>, r: Rest<C>): Process<C>
    decreases |own|
  {
    if own == [] then q else After(Next(q, own[0], r), own[1..], r)
  }

  lemma GetFollows<C>(s: State<C>, p: Pid, r: Rest<C>)
    requires Calm(s, r) && p in s.procs && Follows(s.procs[p], r)
    ensures AfterGet(s, s.procs[p]) == NextGet(s.procs[p], r) && Follows(NextGet(s.procs[p], r), r)
  {
    hide Invariant, Pending;
    if !r.direct && s.legacyRevision.Some? {
      assert r.word == Some(Word(Legacy, s.legacyRevision.value)) && !Pending(s, s.legacyRevision.value);
    }
  }

  lemma StepFollows<C>(s: State<C>, a: Action<C>, p: Pid, r: Rest<C>)
    requires Calm(s, r) && (a == CheckLock(p) ==> s.lock.None?)
    requires p in s.procs && Follows(s.procs[p], r)
    ensures p in Step(s, a).procs && Follows(Step(s, a).procs[p], r)
    ensures Step(s, a).procs[p] == if !a.Expire? && a.p == p then Next(s.procs[p], a, r) else s.procs[p]
  {
    hide Invariant, AfterGet, NextGet, EffectiveWord, Returns;
    if a == Get(p) {
      GetFollows(s, p, r);
    }
  }

  lemma {:induction false} RunFollows<C>(s: State<C>, actions: seq<Action<C>>, p: Pid, r: Rest<C>)
    requires Steady(s, actions, p, r) && p in s.procs && Follows(s.procs[p], r)
    ensures p in Run(s, actions).procs && Run(s, actions).procs[p] == After(s.procs[p], Own(actions, p), r)
    decreases |actions|
  {
    if actions != [] {
      StepFollows(s, actions[0], p, r);
      hide Calm, Step, Follows, Next;
      RunFollows(Step(s, actions[0]), actions[1..], p, r);
      var own := Own(actions[1..], p);
      assert ([actions[0]] + own)[1..] == own && [] + own == own;
    }
  }

  lemma {:induction false} AfterAppend<C>(q: Process<C>, a: seq<Action<C>>, b: seq<Action<C>>, r: Rest<C>)
    ensures After(q, a + b, r) == After(After(q, a, r), b, r)
    decreases |a|
  {
    if a == [] {
      assert a + b == b;
    } else {
      assert (a + b)[1..] == a[1..] + b;
      AfterAppend(Next(q, a[0], r), a[1..], b, r);
    }
  }

  lemma {:induction false} AfterReads<C>(q: Process<C>, looks: seq<Action<C>>, r: Rest<C>)
    requires q.Pinned? && forall a :: a in looks ==> a.Read?
    ensures After(q, looks, r) == Pinned(q.pinned, q.begun, q.seen + seq(|looks|, _ => r.version))
    decreases |looks|
  {
    if looks == [] {
      assert q.seen + seq(0, _ => r.version) == q.seen;
    } else {
      assert looks[0] in looks;
      AfterReads(Next(q, looks[0], r), looks[1..], r);
      assert [r.version] + seq(|looks| - 1, _ => r.version) == seq(|looks|, _ => r.version);
      assert (q.seen + [r.version]) + seq(|looks| - 1, _ => r.version) == q.seen + seq(|looks|, _ => r.version);
    }
  }

  lemma AfterGets<C>(q: Process<C>, s: State<C>, p: Pid, r: Rest<C>)
    requires r.direct == s.published.Some?
    ensures After(q, Gets(s, p), r) == if r.direct then NextGet(q, r) else NextGet(NextGet(q, r), r)
  {
    var get: Action<C> := Get(p);
    hide NextGet;
    assert After(NextGet(NextGet(q, r), r), [], r) == NextGet(NextGet(q, r), r) && After(NextGet(q, r), [], r) == NextGet(q, r);
    assert After(q, [get], r) == After(Next(q, get, r), [get][1..], r);
    assert After(NextGet(q, r), [get], r) == After(Next(NextGet(q, r), get, r), [get][1..], r);
    assert [get, get][1..] == [get];
  }

  /** `n` reads of one generation, which is resolved again before each of them. */
  ghost function Looks<C>(s: State<C>, p: Pid, g: Generation, n: nat): seq<Action<C>> {
    if n == 0 then [] else Gets(s, p) + [Read(p, g)] + Looks(s, p, g, n - 1)
  }

  /** Resolving the generation and reading it once. */
  lemma AfterLook<C>(view: View<C>, s: State<C>, p: Pid, r: Rest<C>)
    requires r.direct == s.published.Some?
    ensures After(Live(view), Gets(s, p) + [Read(p, GenerationOf(r.word))], r) == Live(Seen(view, GenerationOf(r.word), r.version))
  {
    var g := GenerationOf(r.word);
    var look: Action<C> := Read(p, g);
    AfterAppend(Live(view), Gets(s, p), [look], r);
    AfterGets(Live(view), s, p, r);
    var q := Live(view.(resolved := view.resolved + {g}));
    assert After(Next(q, look, r), [look][1..], r) == Next(q, look, r);
  }

  ghost function Seen<C>(view: View<C>, g: Generation, v: Version<C>): View<C> {
    view.(resolved := view.resolved + {g}, seen := view.seen + [Observation(g, v)])
  }

  lemma {:induction false} AfterLooks<C>(view: View<C>, s: State<C>, p: Pid, n: nat, r: Rest<C>)
    requires r.direct == s.published.Some?
    ensures var q := After(Live(view), Looks(s, p, GenerationOf(r.word), n), r);
            && q.Live? && q.view.word == view.word && q.view.exposed == view.exposed
            && q.view.seen == view.seen + seq(n, _ => Observation(GenerationOf(r.word), r.version))
    decreases n
  {
    var g := GenerationOf(r.word);
    var o := Observation(g, r.version);
    if n == 0 {
      assert view.seen + seq(n, _ => o) == view.seen;
    } else {
      hide After, Gets;
      AfterAppend(Live(view), Gets(s, p) + [Read(p, g)], Looks(s, p, g, n - 1), r);
      AfterLook(view, s, p, r);
      AfterLooks(Seen(view, g, r.version), s, p, n - 1, r);
      assert (view.seen + [o]) + seq(n - 1, _ => o) == view.seen + seq(n, _ => o);
    }
  }

  // ----- Readers return -----

  /** A process that holds no lock is left alone by all others. */
  lemma {:induction false} OthersLeaveIt<C>(s: State<C>, actions: seq<Action<C>>, p: Pid)
    requires Own(actions, p) == [] && (p in s.procs ==> !HoldsLock(s.procs[p]))
    ensures p in Run(s, actions).procs <==> p in s.procs
    ensures p in s.procs ==> Run(s, actions).procs[p] == s.procs[p]
    decreases |actions|
  {
    if actions != [] {
      OthersLeaveIt(Step(s, actions[0]), actions[1..], p);
    }
  }

  lemma {:induction false} Starts<C>(s: State<C>, actions: seq<Action<C>>, p: Pid)
    requires p !in s.procs && (Own(actions, p) == [StartPinned(p)] || Own(actions, p) == [StartLive(p)])
    ensures p in Run(s, actions).procs
    ensures Run(s, actions).procs[p] == if Own(actions, p) == [StartPinned(p)] then PinnedStart else LiveStart
    decreases |actions|
  {
    var t := Step(s, actions[0]);
    var mine := !actions[0].Expire? && actions[0].p == p;
    if mine {
      assert Own(actions, p)[0] == actions[0] && Own(actions, p)[1..] == Own(actions[1..], p);
      OthersLeaveIt(t, actions[1..], p);
    } else {
      assert Own(actions, p) == Own(actions[1..], p);
      Starts(t, actions[1..], p);
    }
  }

  lemma {:induction false} OwnHas<C>(actions: seq<Action<C>>, p: Pid, k: nat)
    requires k < |actions| && !actions[k].Expire? && actions[k].p == p
    ensures actions[k] in Own(actions, p)
    decreases |actions|
  {
    if k > 0 {
      OwnHas(actions[1..], p, k - 1);
    }
  }

  /** The three parts of a run: up to `first`, from there up to `last`, and what comes behind. */
  lemma Parts<C>(s: State<C>, actions: seq<Action<C>>, first: nat, last: nat)
    requires first <= last < |actions|
    ensures var t, middle := Run(s, actions[..first]), actions[first..last + 1];
            && Run(s, actions) == Run(Run(t, middle), actions[last + 1..])
            && Run(s, actions[..last]) == Run(t, middle[..|middle| - 1])
  {
    var middle := actions[first..last + 1];
    assert actions == actions[..first] + middle + actions[last + 1..];
    RunAppend(s, actions[..first] + middle, actions[last + 1..]);
    RunAppend(s, actions[..first], middle);
    assert actions[..last] == actions[..first] + middle[..|middle| - 1];
    RunAppend(s, actions[..first], middle[..|middle| - 1]);
  }

  /** What a reader that holds no lock has become, if one word stays in effect from `first` to `last` and its actions lie between. */
  lemma EndsAfter<C>(s: State<C>, actions: seq<Action<C>>, p: Pid, first: nat, last: nat)
    requires Invariant(s) && first <= last < |actions| && Own(actions[last + 1..], p) == []
    requires var t := Run(s, actions[..first]);
             && p in t.procs && (t.procs[p].PinnedStart? || t.procs[p].LiveStart?)
             && EffectiveWord(Run(s, actions[..last])) == EffectiveWord(t)
             && (EffectiveWord(t).Some? ==> !Returns(t, EffectiveWord(t).value))
             && FindsNoLock(t, actions[first..last + 1], p)
    ensures var t, u := Run(s, actions[..first]), Run(s, actions);
            var q := After(t.procs[p], Own(actions[first..last + 1], p), RestOf(t));
            !HoldsLock(q) ==> p in u.procs && u.procs[p] == q
  {
    var t, middle := Run(s, actions[..first]), actions[first..last + 1];
    RunKeepsInvariant(s, actions[..first]);
    Parts(s, actions, first, last);
    hide Invariant, Returns, Own;
    StaysSteady(t, middle, p, RestOf(t));
    RunFollows(t, middle, p, RestOf(t));
    if !HoldsLock(After(t.procs[p], Own(middle, p), RestOf(t))) {
      OthersLeaveIt(Run(t, middle), actions[last + 1..], p);
    }
  }

  /**
    A read of the published generation returns. In whatever interleaving, if one word that cannot return
    is in effect at its first GET and at its last, the read has seen that word's slot at each of its reads
    and at both checks, whichever of the two keys holds the word.
  */
  lemma PublishedReadReturns<C>(s: State<C>, actions: seq<Action<C>>, p: Pid, first: nat, last: nat, looks: seq<Action<C>>, w: Word)
    requires Invariant(s) && p !in s.procs && first <= last < |actions|
    requires Own(actions[..first], p) == [StartPinned(p)] && Own(actions[last + 1..], p) == []
    requires forall a :: a in looks ==> a.Read?
    requires var t := Run(s, actions[..first]);
             && Own(actions[first..last + 1], p) == Gets(t, p) + looks + Gets(t, p)
             && EffectiveWord(t) == Some(w) && !Returns(t, w) && EffectiveWord(Run(s, actions[..last])) == Some(w)
    ensures var u, v := Run(s, actions), Run(s, actions[..first]).slots.At(w.generation);
            p in u.procs && u.procs[p] == PinnedDone(w, v, seq(|looks|, _ => v), v)
  {
    var t := Run(s, actions[..first]);
    Starts(s, actions[..first], p);
    NoLockIsLookedFor(t, actions[first..last + 1], p, looks);
    hide Invariant, Returns, Run, NextGet, FindsNoLock;
    EndsAfter(s, actions, p, first, last);
    PinnedThroughout(t, p, RestOf(t), w, looks);
  }

  lemma NoLockIsLookedFor<C>(t: State<C>, middle: seq<Action<C>>, p: Pid, looks: seq<Action<C>>)
    requires Own(middle, p) == Gets(t, p) + looks + Gets(t, p) && forall a :: a in looks ==> a.Read?
    ensures FindsNoLock(t, middle, p)
  {
    hide Run;
    var gets := Gets(t, p);
    assert forall a :: a in gets + looks + gets ==> a in gets || a in looks;
    assert forall a :: a in gets ==> a.Get?;
    assert forall k :: 0 <= k < |middle| && !middle[k].Expire? && middle[k].p == p ==> middle[k] in Own(middle, p) by {
      forall k | 0 <= k < |middle| && !middle[k].Expire? && middle[k].p == p
        ensures middle[k] in Own(middle, p)
      {
        OwnHas(middle, p, k);
      }
    }
  }

  lemma PinnedThroughout<C>(t: State<C>, p: Pid, r: Rest<C>, w: Word, looks: seq<Action<C>>)
    requires r.direct == t.published.Some? && r.word == Some(w) && forall a :: a in looks ==> a.Read?
    ensures After(PinnedStart, Gets(t, p) + looks + Gets(t, p), r) == PinnedDone(w, r.version, seq(|looks|, _ => r.version), r.version)
  {
    hide After, Gets, NextGet;
    var gets, seen := Gets(t, p), seq(|looks|, _ => r.version);
    AfterAppend(PinnedStart, gets + looks, gets, r);
    AfterAppend(PinnedStart, gets, looks, r);
    PinnedBegins(t, p, r, w);
    AfterReads(Pinned(w, r.version, []), looks, r);
    assert [] + seen == seen;
    PinnedEnds(t, p, r, w, seen);
  }

  lemma PinnedBegins<C>(t: State<C>, p: Pid, r: Rest<C>, w: Word)
    requires r.direct == t.published.Some? && r.word == Some(w)
    ensures After(PinnedStart, Gets(t, p), r) == Pinned(w, r.version, [])
  {
    AfterGets(PinnedStart, t, p, r);
  }

  lemma PinnedEnds<C>(t: State<C>, p: Pid, r: Rest<C>, w: Word, seen: seq<Version<C>>)
    requires r.direct == t.published.Some?
    ensures After(Pinned(w, r.version, seen), Gets(t, p), r) == PinnedDone(w, r.version, seen, r.version)
  {
    AfterGets(Pinned(w, r.version, seen), t, p, r);
  }

  /**
    So does a live read that finds no lock at its two checks, also when there is no word at all: it resolves
    and reads that one generation every time, and its end check succeeds.
  */
  lemma LiveReadReturns<C>(s: State<C>, actions: seq<Action<C>>, p: Pid, first: nat, last: nat, n: nat, word: Option<Word>)
    requires Invariant(s) && p !in s.procs && first <= last < |actions|
    requires Own(actions[..first], p) == [StartLive(p)] && Own(actions[last + 1..], p) == []
    requires var t := Run(s, actions[..first]);
             && Own(actions[first..last + 1], p)
                == Gets(t, p) + [CheckLock(p)] + Looks(t, p, GenerationOf(word), n) + [CheckLock(p)] + Gets(t, p)
             && FindsNoLock(t, actions[first..last + 1], p)
             && EffectiveWord(t) == word && (word.Some? ==> !Returns(t, word.value)) && EffectiveWord(Run(s, actions[..last])) == word
    ensures var u, v := Run(s, actions), Run(s, actions[..first]).slots.At(GenerationOf(word));
            && p in u.procs && u.procs[p].LiveDone? && u.procs[p].ended == v
            && u.procs[p].view.word == word && !u.procs[p].view.exposed
            && u.procs[p].view.seen == seq(n, _ => Observation(GenerationOf(word), v))
  {
    var t := Run(s, actions[..first]);
    Starts(s, actions[..first], p);
    hide Invariant, Returns, Run, NextGet, FindsNoLock;
    EndsAfter(s, actions, p, first, last);
    LiveThroughout(t, p, RestOf(t), n);
  }

  lemma LiveThroughout<C>(t: State<C>, p: Pid, r: Rest<C>, n: nat)
    requires r.direct == t.published.Some?
    ensures var q := After(LiveStart, Gets(t, p) + [CheckLock(p)] + Looks(t, p, GenerationOf(r.word), n) + [CheckLock(p)] + Gets(t, p), r);
            && q.LiveDone? && q.ended == r.version && q.view.word == r.word && !q.view.exposed
            && q.view.seen == seq(n, _ => Observation(GenerationOf(r.word), r.version))
  {
    hide After, Gets, Looks, NextGet;
    var gets, check, looks := Gets(t, p), [CheckLock(p)], Looks(t, p, GenerationOf(r.word), n);
    var view := View(r.word, false, r.version, {}, []);
    AfterAppend(LiveStart, gets + check + looks + check, gets, r);
    AfterAppend(LiveStart, gets + check + looks, check, r);
    AfterAppend(LiveStart, gets + check, looks, r);
    AfterAppend(LiveStart, gets, check, r);
    LiveBegins(t, p, r);
    AfterCheck(LiveLocked(view), p, r);
    AfterLooks(view, t, p, n, r);
    var q := After(Live(view), looks, r);
    AfterCheck(q, p, r);
    LiveEnds(q.view, t, p, r);
    var seen := seq(n, _ => Observation(GenerationOf(r.word), r.version));
    assert [] + seen == seen;
  }

  lemma AfterCheck<C>(q: Process<C>, p: Pid, r: Rest<C>)
    ensures After(q, [CheckLock(p)], r) == Next(q, CheckLock(p), r)
  {
    var check: Action<C> := CheckLock(p);
    assert After(Next(q, check, r), [check][1..], r) == Next(q, check, r);
  }

  lemma LiveBegins<C>(t: State<C>, p: Pid, r: Rest<C>)
    requires r.direct == t.published.Some?
    ensures After(LiveStart, Gets(t, p), r) == LiveLocked(View(r.word, false, r.version, {}, []))
  {
    AfterGets(LiveStart, t, p, r);
  }

  lemma LiveEnds<C>(view: View<C>, t: State<C>, p: Pid, r: Rest<C>)
    requires r.direct == t.published.Some?
    ensures After(LiveEnd(view), Gets(t, p), r) == LiveDone(view, r.version)
  {
    AfterGets(LiveEnd(view), t, p, r);
  }

  // ----- What a reader's state says about the run -----

  /** Two positions at which process `p` asks for the word: the published key, and when that is absent the legacy revision. */
  ghost predicate WordAt<C>(s: State<C>, actions: seq<Action<C>>, p: Pid, j: nat, k: nat, word: Option<Word>) {
    && j <= k < |actions| && actions[j] == Get(p) && actions[k] == Get(p)
    && (if Run(s, actions[..j]).published.Some? then j == k && word == Run(s, actions[..j]).published
        else j < k && word == LegacyWord(Run(s, actions[..k])))
  }

  ghost predicate AbsentAt<C>(s: State<C>, actions: seq<Action<C>>, p: Pid, j: nat) {
    j < |actions| && actions[j] == Get(p) && Run(s, actions[..j]).published.None?
  }

  ghost predicate CheckAt<C>(s: State<C>, actions: seq<Action<C>>, p: Pid, c: nat, free: bool) {
    c < |actions| && actions[c] == CheckLock(p) && Run(s, actions[..c]).lock.None? == free
  }

  ghost predicate SawAbsent<C>(s: State<C>, actions: seq<Action<C>>, p: Pid) {
    exists j: nat :: AbsentAt(s, actions, p, j)
  }

  ghost predicate SawWord<C>(s: State<C>, actions: seq<Action<C>>, p: Pid, word: Option<Word>) {
    exists j: nat, k: nat :: WordAt(s, actions, p, j, k, word)
  }

  ghost predicate SawThenAbsent<C>(s: State<C>, actions: seq<Action<C>>, p: Pid, word: Option<Word>) {
    exists j: nat, k: nat, l: nat :: WordAt(s, actions, p, j, k, word) && k < l && AbsentAt(s, actions, p, l)
  }

  ghost predicate SawTwice<C>(s: State<C>, actions: seq<Action<C>>, p: Pid, word: Option<Word>, later: Option<Word>) {
    exists j: nat, k: nat, l: nat, m: nat :: WordAt(s, actions, p, j, k, word) && k < l && WordAt(s, actions, p, l, m, later)
  }

  /** The word, and then a free lock. */
  ghost predicate SawUnlocked<C>(s: State<C>, actions: seq<Action<C>>, p: Pid, word: Option<Word>) {
    exists j: nat, k: nat, c: nat :: WordAt(s, actions, p, j, k, word) && k < c && CheckAt(s, actions, p, c, true)
  }

  /** The word, and then the lock found free twice, the second time at `d`. */
  ghost predicate UnlockedTwiceAt<C>(s: State<C>, actions: seq<Action<C>>, p: Pid, word: Option<Word>, d: nat) {
    exists j: nat, k: nat, c: nat :: WordAt(s, actions, p, j, k, word) && k < c < d && CheckAt(s, actions, p, c, true) && CheckAt(s, actions, p, d, true)
  }

  ghost predicate UnlockedTwice<C>(s: State<C>, actions: seq<Action<C>>, p: Pid, word: Option<Word>) {
    exists d: nat :: UnlockedTwiceAt(s, actions, p, word, d)
  }

  ghost predicate UnlockedTwiceThenAbsent<C>(s: State<C>, actions: seq<Action<C>>, p: Pid, word: Option<Word>) {
    exists d: nat, l: nat :: UnlockedTwiceAt(s, actions, p, word, d) && d < l && AbsentAt(s, actions, p, l)
  }

  /** The word, the lock found free twice, and the same word once more. */
  ghost predicate FullyChecked<C>(s: State<C>, actions: seq<Action<C>>, p: Pid, word: Option<Word>) {
    exists d: nat, l: nat, m: nat :: UnlockedTwiceAt(s, actions, p, word, d) && d < l && WordAt(s, actions, p, l, m, word)
  }

  /** Why a reader is done without a result: it crashed, found a lock, or read two different words. */
  ghost predicate InVain<C>(s: State<C>, actions: seq<Action<C>>, p: Pid) {
    || Crash(p) in actions
    || (exists c: nat :: CheckAt(s, actions, p, c, false))
    || (exists v, w :: v != w && SawTwice(s, actions, p, v, w))
  }

  /** The process was not started as a writer, nor to publish the legacy word. */
  ghost predicate IsReader<C>(actions: seq<Action<C>>, p: Pid) {
    forall a :: a in actions && !a.Expire? && a.p == p ==> !a.StartWriter? && !a.StartEnsure?
  }

  ghost predicate Explained<C>(s: State<C>, actions: seq<Action<C>>, p: Pid, q: Process<C>) {
    match q
    case EnsuringFallback => !IsReader(actions, p) && SawAbsent(s, actions, p)
    case EnsuringAbsent => !IsReader(actions, p) && SawWord(s, actions, p, None)
    case EnsuringStored(_) => !IsReader(actions, p) && SawWord(s, actions, p, None)
    case PinnedStart => StartPinned(p) in actions
    case PinnedStartFallback => StartPinned(p) in actions && SawAbsent(s, actions, p)
    case Pinned(w, _, _) => SawWord(s, actions, p, Some(w))
    case PinnedEndFallback(w, _, _) => SawThenAbsent(s, actions, p, Some(w))
    case PinnedDone(w, _, _, _) => SawTwice(s, actions, p, Some(w), Some(w))
    case LiveStartFallback => SawAbsent(s, actions, p)
    case LiveLocked(view) => SawWord(s, actions, p, view.word)
    case Live(view) => SawUnlocked(s, actions, p, view.word)
    case LiveResolveFallback(view) => SawUnlocked(s, actions, p, view.word)
    case LiveEnd(view) => UnlockedTwice(s, actions, p, view.word)
    case LiveEndFallback(view) => UnlockedTwiceThenAbsent(s, actions, p, view.word)
    case LiveDone(view, _) => FullyChecked(s, actions, p, view.word)
    case Finished => IsReader(actions, p) ==> InVain(s, actions, p) || (StartPinned(p) in actions && SawWord(s, actions, p, None))
    case _ => !IsReader(actions, p) || q.LiveStart?
  }

  /** What was seen stays seen. */
  lemma SeenStays<C>(s: State<C>, actions: seq<Action<C>>, a: Action<C>, p: Pid)
    ensures forall j: nat, k: nat, word :: WordAt(s, actions, p, j, k, word) ==> WordAt(s, actions + [a], p, j, k, word)
    ensures forall j: nat :: AbsentAt(s, actions, p, j) ==> AbsentAt(s, actions + [a], p, j)
    ensures forall c: nat, free :: CheckAt(s, actions, p, c, free) ==> CheckAt(s, actions + [a], p, c, free)
    ensures IsReader(actions + [a], p) ==> IsReader(actions, p)
    ensures Crash(p) in actions ==> Crash(p) in actions + [a]
    ensures StartPinned(p) in actions ==> StartPinned(p) in actions + [a]
  {
    var more := actions + [a];
    assert forall j :: 0 <= j <= |actions| ==> more[..j] == actions[..j];
    assert forall j :: 0 <= j < |actions| ==> more[j] == actions[j];
    assert forall b :: b in actions ==> b in more;
    hide Run;
  }

  lemma ExplainedStays<C>(s: State<C>, actions: seq<Action<C>>, a: Action<C>, p: Pid, q: Process<C>)
    requires Explained(s, actions, p, q)
    ensures Explained(s, actions + [a], p, q)
  {
    hide WordAt, AbsentAt, CheckAt, IsReader;
    var more := actions + [a];
    SeenStays(s, actions, a, p);
    forall word
      ensures SawWord(s, actions, p, word) ==> SawWord(s, more, p, word)
      ensures SawThenAbsent(s, actions, p, word) ==> SawThenAbsent(s, more, p, word)
      ensures SawUnlocked(s, actions, p, word) ==> SawUnlocked(s, more, p, word)
    {
    }
    forall word, later
      ensures SawTwice(s, actions, p, word, later) ==> SawTwice(s, more, p, word, later)
    {
    }
    forall word, d: nat
      ensures UnlockedTwiceAt(s, actions, p, word, d) ==> UnlockedTwiceAt(s, more, p, word, d)
    {
    }
    hide SawWord, SawThenAbsent, SawUnlocked, SawTwice, UnlockedTwiceAt;
  }

  /** What the last action of a run has seen. */
  lemma SeenNow<C>(s: State<C>, actions: seq<Action<C>>, a: Action<C>, p: Pid)
    ensures var t, n := Run(s, actions), |actions|;
            && (a == Get(p) && t.published.Some? ==> WordAt(s, actions + [a], p, n, n, t.published))
            && (a == Get(p) && t.published.None? ==> AbsentAt(s, actions + [a], p, n))
            && (a == Get(p) ==> forall j: nat :: AbsentAt(s, actions, p, j) ==> WordAt(s, actions + [a], p, j, n, LegacyWord(t)))
            && (a == CheckLock(p) ==> CheckAt(s, actions + [a], p, n, t.lock.None?))
            && a in actions + [a]
            && ((a.StartWriter? || a.StartEnsure?) && a.p == p ==> !IsReader(actions + [a], p))
  {
    var more, n := actions + [a], |actions|;
    assert more[..n] == actions && more[n] == a && a in more;
    assert forall j: nat :: j < n ==> more[..j] == actions[..j] && more[j] == actions[j];
    hide Run;
  }

  /** The published key answers. */
  lemma GetDirect<C>(s: State<C>, actions: seq<Action<C>>, p: Pid, word: Option<Word>)
    requires word.Some? && Run(s, actions).published == word
    ensures var more := actions + [Get(p)];
            && SawWord(s, more, p, word)
            && forall v ::
                 && (SawWord(s, actions, p, v) ==> SawTwice(s, more, p, v, word))
                 && (UnlockedTwice(s, actions, p, v) ==> SawTwice(s, more, p, v, word) && (v == word ==> FullyChecked(s, more, p, v)))
  {
    hide WordAt, AbsentAt, CheckAt, IsReader, Run;
    var more, n := actions + [Get(p)], |actions|;
    SeenStays(s, actions, Get(p), p);
    SeenNow(s, actions, Get(p), p);
    SeenBefore(s, actions, p);
    assert WordAt(s, more, p, n, n, word);
    forall v | SawWord(s, actions, p, v)
      ensures SawTwice(s, more, p, v, word)
    {
      var j: nat, k: nat :| WordAt(s, actions, p, j, k, v);
      assert WordAt(s, more, p, j, k, v) && k < n && WordAt(s, more, p, n, n, word);
    }
    forall v | UnlockedTwice(s, actions, p, v)
      ensures SawTwice(s, more, p, v, word) && (v == word ==> FullyChecked(s, more, p, v))
    {
      var d: nat :| UnlockedTwiceAt(s, actions, p, v, d);
      var j: nat, k: nat, c: nat :| WordAt(s, actions, p, j, k, v) && k < c < d && CheckAt(s, actions, p, c, true) && CheckAt(s, actions, p, d, true);
      assert WordAt(s, more, p, j, k, v) && k < n && WordAt(s, more, p, n, n, word);
      assert UnlockedTwiceAt(s, more, p, v, d) && d < n;
    }
  }

  lemma SeenBefore<C>(s: State<C>, actions: seq<Action<C>>, p: Pid)
    ensures forall j: nat, k: nat, word :: WordAt(s, actions, p, j, k, word) ==> k < |actions|
    ensures forall c: nat, free :: CheckAt(s, actions, p, c, free) ==> c < |actions|
    ensures forall j: nat :: AbsentAt(s, actions, p, j) ==> j < |actions|
  {
    hide Run;
  }

  /** The published key is absent. */
  lemma GetAbsent<C>(s: State<C>, actions: seq<Action<C>>, p: Pid)
    requires Run(s, actions).published.None?
    ensures var more := actions + [Get(p)];
            && SawAbsent(s, more, p)
            && forall v ::
                 && (SawWord(s, actions, p, v) ==> SawThenAbsent(s, more, p, v))
                 && (UnlockedTwice(s, actions, p, v) ==> UnlockedTwiceThenAbsent(s, more, p, v))
  {
    hide WordAt, AbsentAt, CheckAt, IsReader, Run;
    var more, n := actions + [Get(p)], |actions|;
    SeenStays(s, actions, Get(p), p);
    SeenNow(s, actions, Get(p), p);
    SeenBefore(s, actions, p);
    forall v | SawWord(s, actions, p, v)
      ensures SawThenAbsent(s, more, p, v)
    {
      var j: nat, k: nat :| WordAt(s, actions, p, j, k, v);
      assert WordAt(s, more, p, j, k, v) && k < n && AbsentAt(s, more, p, n);
    }
    forall v | UnlockedTwice(s, actions, p, v)
      ensures UnlockedTwiceThenAbsent(s, more, p, v)
    {
      var d: nat :| UnlockedTwiceAt(s, actions, p, v, d);
      assert UnlockedTwiceAt(s, more, p, v, d) && d < n && AbsentAt(s, more, p, n);
    }
  }

  /** After the published key was absent, the legacy revision answers. */
  lemma GetLegacy<C>(s: State<C>, actions: seq<Action<C>>, p: Pid, word: Option<Word>)
    requires word == LegacyWord(Run(s, actions))
    ensures var more := actions + [Get(p)];
            && (SawAbsent(s, actions, p) ==> SawWord(s, more, p, word))
            && forall v ::
                 && (SawThenAbsent(s, actions, p, v) ==> SawTwice(s, more, p, v, word))
                 && (UnlockedTwiceThenAbsent(s, actions, p, v) ==>
                       SawTwice(s, more, p, v, word) && (v == word ==> FullyChecked(s, more, p, v)))
  {
    hide WordAt, AbsentAt, CheckAt, IsReader, Run;
    var more, n := actions + [Get(p)], |actions|;
    SeenStays(s, actions, Get(p), p);
    SeenNow(s, actions, Get(p), p);
    forall v | SawThenAbsent(s, actions, p, v)
      ensures SawTwice(s, more, p, v, word)
    {
      var j: nat, k: nat, l: nat :| WordAt(s, actions, p, j, k, v) && k < l && AbsentAt(s, actions, p, l);
      assert WordAt(s, more, p, j, k, v) && WordAt(s, more, p, l, n, word);
    }
    forall v | UnlockedTwiceThenAbsent(s, actions, p, v)
      ensures SawTwice(s, more, p, v, word) && (v == word ==> FullyChecked(s, more, p, v))
    {
      var d: nat, l: nat :| UnlockedTwiceAt(s, actions, p, v, d) && d < l && AbsentAt(s, actions, p, l);
      var j: nat, k: nat, c: nat :| WordAt(s, actions, p, j, k, v) && k < c < d && CheckAt(s, actions, p, c, true) && CheckAt(s, actions, p, d, true);
      assert WordAt(s, more, p, j, k, v) && k < l && WordAt(s, more, p, l, n, word);
      assert UnlockedTwiceAt(s, more, p, v, d);
    }
  }

  lemma GetExplained<C>(s: State<C>, actions: seq<Action<C>>, p: Pid)
    requires var t := Run(s, actions); p in t.procs && Explained(s, actions, p, t.procs[p])
    ensures var t := Run(s, actions); Explained(s, actions + [Get(p)], p, AfterGet(t, t.procs[p]))
  {
    hide Run, SawAbsent, SawWord, SawThenAbsent, SawTwice, SawUnlocked, UnlockedTwice, UnlockedTwiceThenAbsent, FullyChecked;
    var t := Run(s, actions);
    ExplainedStays(s, actions, Get(p), p, t.procs[p]);
    if t.published.Some? {
      GetDirect(s, actions, p, t.published);
    } else {
      GetAbsent(s, actions, p);
    }
    GetLegacy(s, actions, p, LegacyWord(t));
  }

  lemma CheckExplained<C>(s: State<C>, actions: seq<Action<C>>, p: Pid)
    requires var t := Run(s, actions); p in t.procs && Explained(s, actions, p, t.procs[p])
    ensures var t := Step(Run(s, actions), CheckLock(p)); p in t.procs && Explained(s, actions + [CheckLock(p)], p, t.procs[p])
  {
    hide WordAt, AbsentAt, CheckAt, IsReader, Run;
    var t, more, n := Run(s, actions), actions + [CheckLock(p)], |actions|;
    ExplainedStays(s, actions, CheckLock(p), p, t.procs[p]);
    SeenStays(s, actions, CheckLock(p), p);
    SeenNow(s, actions, CheckLock(p), p);
    SeenBefore(s, actions, p);
    match t.procs[p]
    case LiveLocked(view) =>
      var j: nat, k: nat :| WordAt(s, actions, p, j, k, view.word);
      assert WordAt(s, more, p, j, k, view.word) && k < n && (t.lock.None? ==> CheckAt(s, more, p, n, true));
    case Live(view) =>
      var j: nat, k: nat, c: nat :| WordAt(s, actions, p, j, k, view.word) && k < c && CheckAt(s, actions, p, c, true);
      assert t.lock.None? ==> UnlockedTwiceAt(s, more, p, view.word, n) by {
        assert WordAt(s, more, p, j, k, view.word) && k < c < n && CheckAt(s, more, p, c, true);
      }
    case _ =>
  }

  lemma StepExplained<C>(s: State<C>, actions: seq<Action<C>>, a: Action<C>, p: Pid)
    requires var t := Run(s, actions); p in t.procs ==> Explained(s, actions, p, t.procs[p])
    ensures var t := Step(Run(s, actions), a); p in t.procs ==> Explained(s, actions + [a], p, t.procs[p])
  {
    hide Run, AfterGet;
    var t := Run(s, actions);
    if p in t.procs && a == Get(p) {
      GetExplained(s, actions, p);
    } else if p in t.procs && a == CheckLock(p) {
      CheckExplained(s, actions, p);
    } else {
      if p in t.procs {
        ExplainedStays(s, actions, a, p, t.procs[p]);
      }
      SeenNow(s, actions, a, p);
      SeenStays(s, actions, a, p);
      hide WordAt, AbsentAt, CheckAt, IsReader, SawAbsent, SawWord, SawThenAbsent, SawTwice, SawUnlocked, UnlockedTwice,
           UnlockedTwiceThenAbsent, FullyChecked;
    }
  }

  /** In every run, the state of a process says what it has seen. */
  lemma {:induction false} RunExplained<C>(s: State<C>, actions: seq<Action<C>>, p: Pid)
    requires p !in s.procs
    ensures var t := Run(s, actions); p in t.procs ==> Explained(s, actions, p, t.procs[p])
    decreases |actions|
  {
    if actions != [] {
      var n := |actions| - 1;
      RunExplained(s, actions[..n], p);
      assert actions == actions[..n] + [actions[n]];
      RunSnoc(s, actions[..n], actions[n]);
      hide Explained, Step;
      StepExplained(s, actions[..n], actions[n], p);
    }
  }

  /**
    A read ends without a result only if it crashed, found a lock, or read two different words, or because
    there was no word for a read of the published generation to start on.
  */
  lemma ReadsEndInVainOnlyForAReason<C>(s: State<C>, actions: seq<Action<C>>, p: Pid)
    requires p !in s.procs && IsReader(actions, p)
    requires var t := Run(s, actions); p in t.procs && t.procs[p].Finished?
    ensures InVain(s, actions, p) || (StartPinned(p) in actions && SawWord(s, actions, p, None))
  {
    RunExplained(s, actions, p);
  }

  /** A result was checked: the same word was read before and behind everything, and a live read found the lock free twice between. */
  lemma ResultsAreChecked<C>(s: State<C>, actions: seq<Action<C>>, p: Pid)
    requires p !in s.procs && p in Run(s, actions).procs
    ensures var q := Run(s, actions).procs[p];
            && (q.PinnedDone? ==> SawTwice(s, actions, p, Some(q.pinned), Some(q.pinned)))
            && (q.LiveDone? ==> FullyChecked(s, actions, p, q.view.word))
  {
    RunExplained(s, actions, p);
  }

  /** The unlocked publish stores a legacy revision only after both keys were absent. */
  lemma LegacyPublishFillsAGap<C>(s: State<C>, actions: seq<Action<C>>, p: Pid)
    requires p !in s.procs
    requires var t := Run(s, actions); p in t.procs && (t.procs[p].EnsuringAbsent? || t.procs[p].EnsuringStored?)
    ensures SawWord(s, actions, p, None)
  {
    RunExplained(s, actions, p);
  }
}
