/**
  When writers publish. A writer that is let to finish publishes what it has written, in a slot that was not
  published, whatever the other processes do meanwhile; and a request that finds no word at all stores one.
*/
module GenerationWrites {
  import opened GenerationProtocol
  import opened GenerationReads
  import opened Options

  ghost predicate LocksHold<C>(actions: seq<Action<C>>) {
    forall k :: 0 <= k < |actions| ==> !actions[k].Expire?
  }

  ghost predicate IsMine<C>(a: Action<C>, p: Pid) {
    !a.Expire? && a.p == p
  }

  /** The commands of a process that writes these contents into its slot, one after the other. */
  ghost function Writes<C>(p: Pid, contents: seq<C>): seq<Action<C>> {
    seq(|contents|, i requires 0 <= i < |contents| => Mutate(p, contents[i]))
  }

  /** A slot after these writes: the last one counts. */
  ghost function Rewritten<C>(v: Version<C>, contents: seq<C>): Version<C> {
    if contents == [] then v else Version(v.writes + |contents|, contents[|contents| - 1])
  }

  /** While a process holds the lock, no other one touches its lock, its progress or any slot. */
  lemma OthersStayOff<C>(s: State<C>, a: Action<C>, p: Pid)
    requires Invariant(s) && p in s.procs && HoldsLock(s.procs[p]) && !a.Expire? && a.p != p
    ensures var t := Step(s, a);
            p in t.procs && t.procs[p] == s.procs[p] && t.lock == Some(p) && t.slots == s.slots
  {
    hide ProcessOk;
    assert s.lock == Some(p);
    assert a.p in s.procs ==> !HoldsLock(s.procs[a.p]);
  }

  lemma {:induction false} Waits<C>(s: State<C>, actions: seq<Action<C>>, p: Pid)
    requires Invariant(s) && p in s.procs && HoldsLock(s.procs[p]) && LocksHold(actions) && Own(actions, p) == []
    ensures var t := Run(s, actions);
            p in t.procs && t.procs[p] == s.procs[p] && t.lock == Some(p) && t.slots == s.slots
    decreases |actions|
  {
    hide Invariant, Step;
    if actions == [] {
      HolderHasLock(s, p);
    } else {
      OthersStayOff(s, actions[0], p);
      StepKeepsInvariant(s, actions[0]);
      Waits(Step(s, actions[0]), actions[1..], p);
    }
  }

  lemma HolderHasLock<C>(s: State<C>, p: Pid)
    requires Invariant(s) && p in s.procs && HoldsLock(s.procs[p])
    ensures s.lock == Some(p)
  {
  }

  lemma {:induction false} NextOnlyGrows<C>(s: State<C>, actions: seq<Action<C>>)
    ensures s.next <= Run(s, actions).next
    decreases |actions|
  {
    if actions != [] {
      NextOnlyGrows(Step(s, actions[0]), actions[1..]);
    }
  }

  /** Up to the first own action the process waits; then it takes that action. */
  lemma {:induction false} FirstOwn<C>(s: State<C>, actions: seq<Action<C>>, p: Pid) returns (k: nat)
    requires Invariant(s) && p in s.procs && HoldsLock(s.procs[p]) && LocksHold(actions) && Own(actions, p) != []
    ensures k < |actions| && actions[k] == Own(actions, p)[0] && Own(actions[k + 1..], p) == Own(actions, p)[1..]
    ensures var t := Run(s, actions[..k]);
            && p in t.procs && t.procs[p] == s.procs[p] && t.lock == Some(p) && t.slots == s.slots && Invariant(t)
            && Run(s, actions) == Run(Step(t, actions[k]), actions[k + 1..])
    decreases |actions|
  {
    hide Invariant, Step;
    if IsMine(actions[0], p) {
      k := 0;
      HolderHasLock(s, p);
      assert actions[..0] == [] && Own(actions, p) == [actions[0]] + Own(actions[1..], p);
    } else {
      OthersStayOff(s, actions[0], p);
      StepKeepsInvariant(s, actions[0]);
      k := FirstOwn(Step(s, actions[0]), actions[1..], p);
      assert actions[..k + 1][0] == actions[0] && actions[..k + 1][1..] == actions[1..][..k];
      assert actions[1..][k + 1..] == actions[k + 2..];
      k := k + 1;
    }
  }

  /** A writer at work writes its slot, and nobody else does. */
  lemma {:induction false} WritesAlone<C>(s: State<C>, actions: seq<Action<C>>, p: Pid, contents: seq<C>)
    requires Invariant(s) && p in s.procs && s.procs[p].Working? && LocksHold(actions) && Own(actions, p) == Writes(p, contents)
    ensures var t, g := Run(s, actions), s.procs[p].slot;
            p in t.procs && t.procs[p] == s.procs[p] && t.lock == Some(p) && t.slots.At(g) == Rewritten(s.slots.At(g), contents)
    decreases |contents|
  {
    hide Invariant;
    if contents == [] {
      Waits(s, actions, p);
    } else {
      var k := FirstOwn(s, actions, p);
      var t := Run(s, actions[..k]);
      StepKeepsInvariant(t, actions[k]);
      assert Writes(p, contents)[1..] == Writes(p, contents[1..]);
      hide Run, Own, LocksHold;
      LocksHoldBehind(actions, k);
      WritesAlone(Step(t, actions[k]), actions[k + 1..], p, contents[1..]);
    }
  }

  lemma LocksHoldBehind<C>(actions: seq<Action<C>>, k: nat)
    requires LocksHold(actions) && k < |actions|
    ensures LocksHold(actions[k + 1..])
  {
  }

  /** From its first look at the word in effect a writer gets to work on the other slot. */
  lemma GetsToWork<C>(s: State<C>, actions: seq<Action<C>>, p: Pid, rest: seq<Action<C>>) returns (k: nat)
    requires Invariant(s) && p in s.procs && s.procs[p].Preparing? && LocksHold(actions)
    requires actions != [] && actions[0] == Get(p) && Own(actions, p) == Gets(s, p) + rest
    ensures k <= |actions| && Own(actions[k..], p) == rest && LocksHold(actions[k..])
    ensures var t := Run(s, actions[..k]);
            && Invariant(t) && p in t.procs && t.procs[p] == Working(WorkingSlot(GenerationOf(s.published)))
            && t.slots == s.slots && Run(s, actions) == Run(t, actions[k..])
  {
    hide Invariant;
    var t, behind := Step(s, Get(p)), actions[1..];
    StepKeepsInvariant(s, Get(p));
    LocksHoldBehind(actions, 0);
    assert Own(actions, p) == [Get(p)] + Own(behind, p);
    assert t.slots == s.slots && p in t.procs;
    if s.published.Some? {
      k := 1;
      assert Gets(s, p) + rest == [Get(p)] + rest;
      SameBehind(Get(p), Own(behind, p), rest);
      assert actions[..1] == [actions[0]];
      assert Run(s, [actions[0]]) == t;
    } else {
      assert Gets(s, p) + rest == [Get(p)] + ([Get(p)] + rest);
      SameBehind(Get(p), Own(behind, p), [Get(p)] + rest);
      var m := FirstOwn(t, behind, p);
      var u := Run(t, behind[..m]);
      LocksHoldBehind(behind, m);
      StepKeepsInvariant(u, Get(p));
      k := m + 2;
      assert actions[..k] == [actions[0]] + behind[..m] + [behind[m]];
      RunAppend(s, [actions[0]] + behind[..m], [behind[m]]);
      RunAppend(s, [actions[0]], behind[..m]);
      RunOne(s, actions[0]);
      RunOne(u, behind[m]);
      assert behind[m + 1..] == actions[k..];
    }
  }

  lemma SameBehind<C>(a: Action<C>, x: seq<Action<C>>, y: seq<Action<C>>)
    requires [a] + x == [a] + y
    ensures x == y
  {
    assert x == ([a] + x)[1..] && y == ([a] + y)[1..];
  }

  lemma RunOne<C>(s: State<C>, a: Action<C>)
    ensures Run(s, [a]) == Step(s, a)
  {
    assert Run(Step(s, a), []) == Step(s, a);
  }

  /**
    A writer that finds the lock free and is neither interrupted nor expired publishes: whatever runs between
    its commands, its last one makes a new word of what it has written, in the slot that was not in effect when
    it looked, under a revision never used before; and it still holds the lock.
  */
  lemma WriterPublishes<C>(s: State<C>, actions: seq<Action<C>>, p: Pid, start: nat, first: nat, last: nat, contents: seq<C>)
    requires Invariant(s) && p !in s.procs && start < first < last < |actions|
    requires Own(actions[..start], p) == [] && actions[start] == StartWriter(p) && Run(s, actions[..start]).lock.None?
    requires Own(actions[start + 1..first], p) == [] && actions[first] == Get(p) && actions[last] == Publish(p)
    requires Own(actions[first..last], p) == Gets(Run(s, actions[..first]), p) + Writes(p, contents)
    requires LocksHold(actions[start..last])
    ensures var t, u := Run(s, actions[..first]), Run(s, actions[..last + 1]);
            var g := WorkingSlot(GenerationOf(t.published));
            && g != Legacy && g != GenerationOf(t.published)
            && (exists r :: r >= t.next && u.published == Some(Word(g, r)))
            && u.slots.At(g) == Rewritten(t.slots.At(g), contents)
            && u.lock == Some(p) && p in u.procs && u.procs[p].Cleaning?
  {
    hide Invariant, Own, LocksHold, Step;
    var t, middle := Run(s, actions[..first]), actions[first..last];
    LocksHoldWithin(actions, start, first, last);
    Prepares(s, actions, p, start, first);
    var k := GetsToWork(t, middle, p, Writes(p, contents));
    WritesAlone(Run(t, middle[..k]), middle[k..], p, contents);
    assert actions[..last + 1] == actions[..first] + middle + [actions[last]];
    RunAppend(s, actions[..first] + middle, [actions[last]]);
    RunAppend(s, actions[..first], middle);
    NextOnlyGrows(t, middle);
    RunOne(Run(t, middle), Publish(p));
    PublishedNow(Run(t, middle), p);
  }

  lemma PublishedNow<C>(s: State<C>, p: Pid)
    requires p in s.procs && s.procs[p].Working?
    ensures var t := Step(s, Publish(p));
            && t.published == Some(Word(s.procs[p].slot, s.next)) && t.slots == s.slots && t.lock == s.lock
            && p in t.procs && t.procs[p].Cleaning?
  {
  }

  lemma LocksHoldWithin<C>(actions: seq<Action<C>>, start: nat, first: nat, last: nat)
    requires start < first < last <= |actions| && LocksHold(actions[start..last])
    ensures LocksHold(actions[start + 1..first]) && LocksHold(actions[first..last])
  {
    assert forall k :: start <= k < last ==> actions[k] == actions[start..last][k - start];
  }

  /** A process that starts to write while the lock is free takes it and waits for its first command. */
  lemma Prepares<C>(s: State<C>, actions: seq<Action<C>>, p: Pid, start: nat, first: nat)
    requires Invariant(s) && p !in s.procs && start < first <= |actions|
    requires Own(actions[..start], p) == [] && actions[start] == StartWriter(p) && Run(s, actions[..start]).lock.None?
    requires Own(actions[start + 1..first], p) == [] && LocksHold(actions[start + 1..first])
    ensures var t := Run(s, actions[..first]); Invariant(t) && p in t.procs && t.procs[p].Preparing?
  {
    hide Invariant, Own, LocksHold;
    var b, wait := Run(s, actions[..start]), actions[start + 1..first];
    OthersLeaveIt(s, actions[..start], p);
    RunKeepsInvariant(s, actions[..start]);
    RunKeepsInvariant(s, actions[..first]);
    var c := Step(b, StartWriter(p));
    assert p in c.procs && c.procs[p] == Preparing;
    StepKeepsInvariant(b, StartWriter(p));
    assert actions[..first] == actions[..start] + [actions[start]] + wait;
    RunAppend(s, actions[..start] + [actions[start]], wait);
    RunSnoc(s, actions[..start], actions[start]);
    hide Run, Step;
    Waits(c, wait, p);
  }

  /** A process that finds the lock taken gives up at once, and one that holds it frees it with its release, and nothing else changes. */
  lemma LockIsTakenAndFreed<C>(s: State<C>, p: Pid)
    requires Invariant(s)
    ensures p !in s.procs && s.lock.Some? ==> Step(s, StartWriter(p)) == s.(procs := s.procs[p := Finished])
    ensures p in s.procs && HoldsLock(s.procs[p]) ==> Step(s, Release(p)) == s.(procs := s.procs[p := Finished], lock := None)
  {
    hide ProcessOk;
  }

  /** One more action of a process that holds no lock, after others have run. */
  lemma ThenOne<C>(s: State<C>, others: seq<Action<C>>, a: Action<C>, p: Pid)
    requires Own(others, p) == [] && p in s.procs && !HoldsLock(s.procs[p])
    ensures var t := Run(s, others); p in t.procs && t.procs[p] == s.procs[p] && Run(s, others + [a]) == Step(t, a)
  {
    hide Step;
    OthersLeaveIt(s, others, p);
    RunSnoc(s, others, a);
  }

  /**
    A request that finds neither key stores both: first a new legacy revision, then the word that carries it.
    If it finds either of them it is through, and has stored nothing.
  */
  lemma RequestStoresTheLegacyWord<C>(s: State<C>, p: Pid, b: seq<Action<C>>, c: seq<Action<C>>, d: seq<Action<C>>, e: seq<Action<C>>)
    requires p !in s.procs && Own(b, p) == [] && Own(c, p) == [] && Own(d, p) == [] && Own(e, p) == []
    ensures var s1 := Step(s, StartEnsure(p));
            var look := Run(s1, b);
            var s2 := Step(look, Get(p));
            var lookAgain := Run(s2, c);
            var s3 := Step(lookAgain, Get(p));
            var before := Run(s3, d);
            var s4 := Step(before, Store(p));
            var s5 := Step(Run(s4, e), Store(p));
            && p in s2.procs && p in s3.procs
            && (look.published.Some? || lookAgain.legacyRevision.Some? ==> s4 == before && s5 == Run(s4, e))
            && (look.published.Some? ==> s2.procs[p].Finished?)
            && (look.published.None? && lookAgain.legacyRevision.Some? ==> s3.procs[p].Finished?)
            && (look.published.None? && lookAgain.legacyRevision.None? ==>
                  && s4.legacyRevision == Some(before.next) && s4.published == before.published
                  && s5.published == Some(Word(Legacy, before.next)) && p in s5.procs && s5.procs[p].Finished?)
  {
    hide Run, Step;
    var s1 := Step(s, StartEnsure(p));
    EnsureStarts(s, p);
    var look := Run(s1, b);
    ThenOne(s1, b, Get(p), p);
    EnsureLooks(look, p);
    var s2 := Step(look, Get(p));
    var lookAgain := Run(s2, c);
    ThenOne(s2, c, Get(p), p);
    EnsureLooks(lookAgain, p);
    var s3 := Step(lookAgain, Get(p));
    var before := Run(s3, d);
    ThenOne(s3, d, Store(p), p);
    EnsureStores(before, p);
    var s4 := Step(before, Store(p));
    ThenOne(s4, e, Store(p), p);
    EnsureStores(Run(s4, e), p);
  }

  lemma EnsureStarts<C>(s: State<C>, p: Pid)
    requires p !in s.procs
    ensures var t := Step(s, StartEnsure(p)); p in t.procs && t.procs[p].Ensuring?
  {
  }

  lemma EnsureLooks<C>(s: State<C>, p: Pid)
    requires p in s.procs
    ensures var t := Step(s, Get(p));
            && p in t.procs && t.procs[p] == AfterGet(s, s.procs[p])
            && (s.procs[p].Finished? ==> t.procs[p].Finished?)
            && (s.procs[p].Ensuring? ==> if s.published.Some? then t.procs[p].Finished? else t.procs[p].EnsuringFallback?)
            && (s.procs[p].EnsuringFallback? ==> if s.legacyRevision.Some? then t.procs[p].Finished? else t.procs[p].EnsuringAbsent?)
  {
    hide Pending;
  }

  lemma EnsureStores<C>(s: State<C>, p: Pid)
    requires p in s.procs
    ensures var t := Step(s, Store(p));
            && (s.procs[p].Finished? ==> t == s)
            && (s.procs[p].EnsuringAbsent? ==> p in t.procs && t.procs[p] == EnsuringStored(s.next)
                                               && t.legacyRevision == Some(s.next) && t.published == s.published)
            && (s.procs[p].EnsuringStored? ==> p in t.procs && t.procs[p].Finished?
                                               && t.published == Some(Word(Legacy, s.procs[p].revision)))
  {
  }
}
