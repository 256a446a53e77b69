/**
  The pending jobs of one Redis queue, read from a snapshot of its three structures: the ready
  list, the reserved set and the delayed set, copied at one moment. The copies are scanned in
  chunks, and each job id is listed once, under the first structure that offers it.
*/
module PendingSnapshot {
  import opened Options

  type Id = string

  /** A field of a decoded payload: absent, a text, or something else. */
  datatype Field = Missing | Text(text: string) | Other

  datatype Number = NoNumber | Number(value: real) | NotNumeric

  datatype Payload = Payload(
    uuid: Field,
    id: Field,
    isRetry: bool,
    madeAvailable: bool,
    createdAt: Number,
    pushedAt: Number,
    delay: Number)

  datatype Item = Item(payload: Payload, score: Option<real>)

  datatype State = Ready | Released | Reserved | Delayed

  datatype Filter = All | OnlyReady | OnlyReleased

  datatype Structure = Structure(items: seq<Item>, isList: bool, expected: nat, state: State, filter: Filter)

  datatype Entry = Entry(id: Id, state: State, payload: Payload, score: Option<real>)

  datatype Snapshot = Snapshot(asOf: real, ready: seq<Item>, reserved: seq<Item>, delayed: seq<Item>, releasedDelayed: seq<Item>)

  /** What a read of the snapshot meets: the copies as made, a vanished copy, or no snapshot any more. */
  datatype Outcome = Intact | Vanished | Expired

  const SCAN_CHUNK_SIZE := 500

  // ----- Payloads -----

  function IdOf(p: Payload): Option<Id> {
    var field := if p.uuid == Missing then p.id else p.uuid;
    if field.Text? && field.text != "" then Some(field.text) else None
  }

  /** A job that was pushed with a delay and has become ready since; a retry or a job made available by hand is not one. */
  predicate IsReleased(p: Payload, asOf: real) {
    var created := if p.createdAt == NoNumber then p.pushedAt else p.createdAt;
    && !p.isRetry && !p.madeAvailable
    && created.Number? && p.delay.Number? && p.delay.value > 0.0 && created.value + p.delay.value <= asOf
  }

  predicate Passes(f: Filter, p: Payload, asOf: real) {
    (f == OnlyReady ==> !IsReleased(p, asOf)) && (f == OnlyReleased ==> IsReleased(p, asOf))
  }

  // ----- The snapshot -----

  function ScoreOf(i: Item): real {
    if i.score.Some? then i.score.value else 0.0
  }

  /** The members of the delayed set that are due after the moment of the snapshot, or by it. */
  function DueAfter(delayed: seq<Item>, asOf: real): seq<Item> {
    if delayed == [] then []
    else (if ScoreOf(delayed[0]) > asOf then [delayed[0]] else []) + DueAfter(delayed[1..], asOf)
  }

  function DueBy(delayed: seq<Item>, asOf: real): seq<Item> {
    if delayed == [] then []
    else (if ScoreOf(delayed[0]) <= asOf then [delayed[0]] else []) + DueBy(delayed[1..], asOf)
  }

  /** One script copies all structures at one moment. */
  function CreateSnapshot(asOf: real, ready: seq<Item>, reserved: seq<Item>, delayed: seq<Item>): Snapshot {
    Snapshot(asOf, ready, reserved, DueAfter(delayed, asOf), DueBy(delayed, asOf))
  }

  /** A member is due at its score, and at zero if it has none. */
  ghost predicate IsDueAfter(i: Item, asOf: real) {
    (exists due :: i.score == Some(due) && due > asOf) || (i.score == None && asOf < 0.0)
  }

  lemma DueAfterIs(i: Item, asOf: real)
    ensures IsDueAfter(i, asOf) <==> ScoreOf(i) > asOf
  {
  }

  lemma {:induction false} DelayedIsSplit(delayed: seq<Item>, asOf: real)
    ensures multiset(DueAfter(delayed, asOf)) + multiset(DueBy(delayed, asOf)) == multiset(delayed)
    ensures forall i :: i in DueAfter(delayed, asOf) ==> IsDueAfter(i, asOf)
    ensures forall i :: i in DueBy(delayed, asOf) ==> !IsDueAfter(i, asOf)
    decreases |delayed|
  {
    hide IsDueAfter;
    if delayed != [] {
      DelayedIsSplit(delayed[1..], asOf);
      DueAfterIs(delayed[0], asOf);
      assert delayed == [delayed[0]] + delayed[1..];
    }
  }

  /** The structures in the order of the scan; the ready list is scanned twice. */
  function Structures(s: Snapshot): seq<Structure> {
    [Structure(s.ready, true, |s.ready|, Ready, OnlyReady),
     Structure(s.ready, true, |s.ready|, Released, OnlyReleased),
     Structure(s.reserved, false, |s.reserved|, Reserved, All),
     Structure(s.delayed, false, |s.delayed|, Delayed, All),
     Structure(s.releasedDelayed, false, |s.releasedDelayed|, Released, All)]
  }

  // ----- What the scan is to list -----

  /** The entry that an item offers, if it has an id and passes the structure's filter. */
  function Offer(state: State, f: Filter, i: Item, asOf: real): seq<Entry> {
    var id := IdOf(i.payload);
    if id.Some? && Passes(f, i.payload, asOf) then [Entry(id.value, state, i.payload, i.score)] else []
  }

  function OffersOf(state: State, f: Filter, items: seq<Item>, asOf: real): seq<Entry> {
    if items == [] then [] else Offer(state, f, items[0], asOf) + OffersOf(state, f, items[1..], asOf)
  }

  function Offers(structures: seq<Structure>, asOf: real): seq<Entry> {
    if structures == [] then []
    else OffersOf(structures[0].state, structures[0].filter, structures[0].items, asOf) + Offers(structures[1..], asOf)
  }

  function IdsOf(entries: seq<Entry>): set<Id> {
    set e | e in entries :: e.id
  }

  lemma IdsOfMore(entries: seq<Entry>, e: Entry)
    ensures IdsOf(entries + [e]) == IdsOf(entries) + {e.id}
  {
    assert forall d :: d in entries + [e] <==> d in entries || d == e;
    assert e in entries + [e];
    forall id | id in IdsOf(entries)
      ensures id in IdsOf(entries + [e])
    {
      var d :| d in entries && d.id == id;
      assert d in entries + [e];
    }
  }

  /** The entries whose id has not come before. */
  function Firsts(entries: seq<Entry>): seq<Entry> {
    if entries == [] then []
    else
      var before := Firsts(entries[..|entries| - 1]);
      var last := entries[|entries| - 1];
      if last.id in IdsOf(before) then before else before + [last]
  }

  /** The entry is the first of its id. */
  ghost predicate FirstIn(entries: seq<Entry>, e: Entry) {
    exists k :: 0 <= k < |entries| && entries[k] == e && forall j :: 0 <= j < k ==> entries[j].id != e.id
  }

  ghost predicate DistinctIds(entries: seq<Entry>) {
    forall i, j :: 0 <= i < j < |entries| ==> entries[i].id != entries[j].id
  }

  /** Each offered id is listed exactly once, with the first entry that offers it. */
  lemma {:induction false} FirstsAreFirst(entries: seq<Entry>)
    ensures IdsOf(Firsts(entries)) == IdsOf(entries) && DistinctIds(Firsts(entries))
    ensures forall e :: e in Firsts(entries) ==> FirstIn(entries, e)
    decreases |entries|
  {
    if entries != [] {
      var rest := entries[..|entries| - 1];
      var last := entries[|entries| - 1];
      FirstsAreFirst(rest);
      assert entries == rest + [last];
      IdsOfMore(rest, last);
      IdsOfMore(Firsts(rest), last);
      hide IdsOf, FirstIn, DistinctIds;
      forall e | e in Firsts(rest)
        ensures FirstIn(entries, e)
      {
        FirstStays(rest, last, e);
      }
      if last.id !in IdsOf(rest) {
        NewIsFirst(rest, last);
        NewIsDistinct(Firsts(rest), last);
      }
    }
  }

  lemma FirstStays(rest: seq<Entry>, last: Entry, e: Entry)
    requires FirstIn(rest, e)
    ensures FirstIn(rest + [last], e)
  {
    var k :| 0 <= k < |rest| && rest[k] == e && forall j :: 0 <= j < k ==> rest[j].id != e.id;
    assert (rest + [last])[k] == e;
  }

  lemma NewIsFirst(rest: seq<Entry>, last: Entry)
    requires last.id !in IdsOf(rest)
    ensures FirstIn(rest + [last], last)
  {
    assert forall j :: 0 <= j < |rest| ==> rest[j] in rest;
    assert (rest + [last])[|rest|] == last;
  }

  lemma NewIsDistinct(rest: seq<Entry>, last: Entry)
    requires last.id !in IdsOf(rest) && DistinctIds(rest)
    ensures DistinctIds(rest + [last])
  {
    assert forall j :: 0 <= j < |rest| ==> rest[j] in rest;
  }

  lemma FirstsMore(entries: seq<Entry>, e: Entry)
    ensures Firsts(entries + [e]) == if e.id in IdsOf(Firsts(entries)) then Firsts(entries) else Firsts(entries) + [e]
  {
    assert (entries + [e])[..|entries|] == entries;
  }

  lemma {:induction false} OffersOfMore(state: State, f: Filter, items: seq<Item>, i: Item, asOf: real)
    ensures OffersOf(state, f, items + [i], asOf) == OffersOf(state, f, items, asOf) + Offer(state, f, i, asOf)
    decreases |items|
  {
    if items == [] {
      assert items + [i] == [i] && [i][1..] == [];
    } else {
      assert (items + [i])[0] == items[0] && (items + [i])[1..] == items[1..] + [i];
      OffersOfMore(state, f, items[1..], i, asOf);
    }
  }

  lemma {:induction false} OffersMore(structures: seq<Structure>, s: Structure, asOf: real)
    ensures Offers(structures + [s], asOf) == Offers(structures, asOf) + OffersOf(s.state, s.filter, s.items, asOf)
    decreases |structures|
  {
    if structures == [] {
      assert structures + [s] == [s] && [s][1..] == [];
      assert Offers([s][1..], asOf) == [];
    } else {
      assert (structures + [s])[0] == structures[0] && (structures + [s])[1..] == structures[1..] + [s];
      OffersMore(structures[1..], s, asOf);
    }
  }

  // ----- The scan -----

  /** LRANGE or ZRANGE of one chunk, as far as the copy is still there. */
  function Chunk(items: seq<Item>, start: nat, o: Outcome): (r: seq<Item>)
    ensures |r| <= SCAN_CHUNK_SIZE
  {
    if o == Vanished || start >= |items| then []
    else if start + SCAN_CHUNK_SIZE <= |items| then items[start..start + SCAN_CHUNK_SIZE]
    else items[start..]
  }

  class Scan {
    const outcome: nat -> Outcome
    var clock: nat
    var seen: set<Id>
    var entries: seq<Entry>

    constructor (outcome: nat -> Outcome)
      ensures this.outcome == outcome && clock == 0 && seen == {} && entries == []
    {
      this.outcome, this.clock, this.seen, this.entries := outcome, 0, {}, [];
    }

    ghost predicate Lists(offers: seq<Entry>)
      reads `seen, `entries
    {
      entries == Firsts(offers) && seen == IdsOf(entries)
    }

    /** Appends an item's entry unless its id has been seen. */
    method Append(s: Structure, i: Item, asOf: real, ghost offers: seq<Entry>)
      requires Lists(offers)
      modifies `seen, `entries
      ensures Lists(offers + Offer(s.state, s.filter, i, asOf))
    {
      var id := IdOf(i.payload);
      if id.None? || !Passes(s.filter, i.payload, asOf) {
        assert offers + Offer(s.state, s.filter, i, asOf) == offers;
        return;
      }
      var entry := Entry(id.value, s.state, i.payload, i.score);
      FirstsMore(offers, entry);
      if id.value in seen {
        return;
      }
      IdsOfMore(entries, entry);
      seen := seen + {id.value};
      entries := entries + [entry];
    }

    /** Reads a structure chunk by chunk; a count that falls short is an error, except in the second pass over the list. */
    method ScanStructure(s: Structure, asOf: real, ghost offers: seq<Entry>) returns (ok: bool, read: nat)
      requires Lists(offers) && s.expected == |s.items|
      modifies this
      ensures clock >= old(clock)
      ensures ok ==> read <= |s.items| && Lists(offers + OffersOf(s.state, s.filter, s.items[..read], asOf))
      ensures ok && !(s.state == Released && s.isList) ==> read == |s.items|
      ensures ok <==> (forall k :: old(clock) <= k < clock ==> outcome(k) != Expired)
                      && (read == |s.items| || (s.state == Released && s.isList))
      ensures read <= |s.items| && (read < |s.items| ==> old(clock) < clock && outcome(clock - 1) != Intact)
      ensures (forall k :: old(clock) <= k < clock ==> outcome(k) == Intact) ==> ok && read == |s.items|
    {
      hide Firsts, Offer, IdsOf, OffersOf, Lists;
      var start, scanning := 0, true;
      NoItemsNoOffers(s.state, s.filter, asOf);
      read := 0;
      ghost var before := clock;
      assert s.items[..0] == [] && offers + [] == offers;
      while scanning
        invariant read <= |s.items| && (scanning ==> read == start)
        invariant Lists(offers + OffersOf(s.state, s.filter, s.items[..read], asOf))
        invariant before <= clock && forall k :: before <= k < clock ==> outcome(k) != Expired
        invariant !scanning && read < |s.items| ==> before < clock && outcome(clock - 1) != Intact
        invariant !scanning && (forall k :: before <= k < clock ==> outcome(k) == Intact) ==> read == |s.items|
        decreases scanning, |s.items| - start
      {
        var o := outcome(clock);
        ghost var now := clock;
        clock := clock + 1;
        assert before <= now < clock;
        if o == Expired {
          return false, read;
        }
        var chunk := Chunk(s.items, start, o);
        for j := 0 to |chunk|
          invariant read == start && read + |chunk| <= |s.items| && clock == now + 1
          invariant chunk == s.items[start..start + |chunk|]
          invariant Lists(offers + OffersOf(s.state, s.filter, s.items[..read + j], asOf))
        {
          assert s.items[..read + j + 1] == s.items[..read + j] + [chunk[j]];
          OffersOfMore(s.state, s.filter, s.items[..read + j], chunk[j], asOf);
          ghost var sofar := OffersOf(s.state, s.filter, s.items[..read + j], asOf);
          assert (offers + sofar) + Offer(s.state, s.filter, chunk[j], asOf) == offers + (sofar + Offer(s.state, s.filter, chunk[j], asOf));
          Append(s, chunk[j], asOf, offers + sofar);
        }
        read := read + |chunk|;
        if |chunk| < SCAN_CHUNK_SIZE {
          scanning := false;
        }
        start := start + SCAN_CHUNK_SIZE;
      }
      if s.state == Released && s.isList {
        return true, read;
      }
      ok := read == s.expected;
    }
  
    /**
      All entries of a queue. Without a mishap they are the first offers of every id over the
      five structures; an answer is given in spite of one only when the whole scan was complete,
      or when the second pass over the ready list was cut short unnoticed.
    */
    method PendingQueueEntries(s: Snapshot) returns (answer: Option<seq<Entry>>, ghost second: nat)
      requires clock == 0 && seen == {} && entries == []
      modifies this
      ensures answer.Some? ==> second <= |s.ready| && answer.value == Firsts(Offers(CutStructures(s, second), s.asOf))
      ensures answer.Some? ==> forall k :: 0 <= k < clock ==> outcome(k) != Expired
      ensures answer.Some? ==> exists places :: ListsInOrder(s, second, answer.value, places)
      ensures (forall k :: 0 <= k < clock ==> outcome(k) == Intact) ==> answer.Some? && second == |s.ready|
    {
      hide Firsts, Offers, OffersOf, IdsOf, ListsInOrder;
      second := 0;
      var structures := Structures(s);
      ghost var scanned: seq<Structure> := [];
      NothingListed(s.asOf);
      for i := 0 to |structures|
        invariant second <= |s.ready| && (i <= 1 ==> second == 0)
        invariant scanned == CutStructures(s, second)[..i]
        invariant Lists(Offers(scanned, s.asOf))
        invariant forall k :: 0 <= k < clock ==> outcome(k) != Expired
        invariant i > 1 && (forall k :: 0 <= k < clock ==> outcome(k) == Intact) ==> second == |s.ready|
      {
        ghost var offers := Offers(scanned, s.asOf);
        var ok, read := ScanStructure(structures[i], s.asOf, offers);
        if !ok {
          return None, second;
        }
        if i == 1 {
          second := read;
        } else {
          assert structures[i].items[..read] == structures[i].items;
        }
        ghost var cut := structures[i].(items := structures[i].items[..read]);
        assert cut == CutStructures(s, second)[i];
        OffersMore(scanned, cut, s.asOf);
        scanned := scanned + [cut];
        assert scanned == CutStructures(s, second)[..i + 1];
      }
      assert scanned == CutStructures(s, second);
      ghost var places := ListedInScanOrder(s, second);
      return Some(entries), second;
    }
  }

  /** The structures as they are scanned when the second pass over the ready list sees its first `second` items. */
  function CutStructures(s: Snapshot, second: nat): seq<Structure>
    requires second <= |s.ready|
  {
    Structures(s)[1 := Structure(s.ready[..second], true, |s.ready|, Released, OnlyReleased)]
  }

  // ----- Where a listed entry stands -----

  /** The payload's id: its uuid, or its id where it has no uuid; an empty one is none. */
  ghost predicate Names(p: Payload, id: Id) {
    id != "" && (p.uuid == Text(id) || (p.uuid == Missing && p.id == Text(id)))
  }

  /** The job was pushed with a delay that has run out by then; it is no retry and was not made available by hand. */
  ghost predicate DelayRanOut(p: Payload, asOf: real) {
    && !p.isRetry && !p.madeAvailable
    && exists since, delay ::
         && (p.createdAt == Number(since) || (p.createdAt == NoNumber && p.pushedAt == Number(since)))
         && p.delay == Number(delay) && delay > 0.0 && since + delay <= asOf
  }

  lemma PayloadSays(p: Payload, asOf: real)
    ensures forall id :: Names(p, id) <==> IdOf(p) == Some(id)
    ensures DelayRanOut(p, asOf) <==> IsReleased(p, asOf)
  {
    var created := if p.createdAt == NoNumber then p.pushedAt else p.createdAt;
    if IsReleased(p, asOf) {
      assert p.createdAt == Number(created.value) || (p.createdAt == NoNumber && p.pushedAt == Number(created.value));
      assert p.delay == Number(p.delay.value);
    }
  }

  /** A place in the scan: the number of the pass, and that of the item in it. */
  datatype Place = Place(pass: nat, item: nat)

  ghost predicate Earlier(a: Place, b: Place) {
    a.pass < b.pass || (a.pass == b.pass && a.item < b.item)
  }

  ghost predicate IsOf(i: Item, e: Entry) {
    Names(i.payload, e.id) && e.payload == i.payload && e.score == i.score
  }

  /**
    What stands at a place: in the first pass the ready jobs that were not released from a delay, in the second
    those that were, as far as it got; then the reserved jobs, the delayed ones, and the delayed ones that are due.
  */
  ghost predicate StandsAt(s: Snapshot, second: nat, at: Place, e: Entry) {
    match at.pass
    case 0 => at.item < |s.ready| && IsOf(s.ready[at.item], e) && !DelayRanOut(e.payload, s.asOf) && e.state == Ready
    case 1 =>
      at.item < |s.ready| && at.item < second && IsOf(s.ready[at.item], e) && DelayRanOut(e.payload, s.asOf) && e.state == Released
    case 2 => at.item < |s.reserved| && IsOf(s.reserved[at.item], e) && e.state == Reserved
    case 3 => at.item < |s.delayed| && IsOf(s.delayed[at.item], e) && e.state == Delayed
    case 4 => at.item < |s.releasedDelayed| && IsOf(s.releasedDelayed[at.item], e) && e.state == Released
    case _ => false
  }

  /** Each id that stands anywhere is listed with what stands at its earliest place, and in the order of these places. */
  ghost predicate ListsInOrder(s: Snapshot, second: nat, listed: seq<Entry>, places: seq<Place>) {
    && |places| == |listed|
    && (forall i :: 0 <= i < |listed| ==> StandsAt(s, second, places[i], listed[i]))
    && (forall i, j :: 0 <= i < j < |places| ==> Earlier(places[i], places[j]))
    && (forall i, at, e :: 0 <= i < |listed| && StandsAt(s, second, at, e) && Earlier(at, places[i]) ==> e.id != listed[i].id)
    && (forall at, e :: StandsAt(s, second, at, e) ==> exists i :: 0 <= i < |listed| && listed[i].id == e.id)
  }

  ghost predicate Rises(ks: seq<nat>) {
    forall i, j :: 0 <= i < j < |ks| ==> ks[i] < ks[j]
  }

  /** The items of one pass that offer an entry, by their numbers. */
  lemma {:induction false} OfferingItems(state: State, f: Filter, items: seq<Item>, asOf: real) returns (ks: seq<nat>)
    ensures var offers := OffersOf(state, f, items, asOf);
            && |ks| == |offers| && Rises(ks)
            && (forall i :: 0 <= i < |ks| ==> ks[i] < |items| && Offer(state, f, items[ks[i]], asOf) == [offers[i]])
            && (forall k :: 0 <= k < |items| && Offer(state, f, items[k], asOf) != [] ==> k in ks)
    decreases |items|
  {
    hide Offer, OffersOf;
    if items == [] {
      ks := [];
      NoItemsNoOffers(state, f, asOf);
    } else {
      var rest, last := items[..|items| - 1], |items| - 1;
      ks := OfferingItems(state, f, rest, asOf);
      OffersOfMore(state, f, rest, items[last], asOf);
      OneOffer(state, f, items[last], asOf);
      assert items == rest + [items[last]];
      if Offer(state, f, items[last], asOf) != [] {
        ks := ks + [last];
      }
    }
  }

  lemma NoItemsNoOffers(state: State, f: Filter, asOf: real)
    ensures OffersOf(state, f, [], asOf) == []
  {
  }

  lemma OneOffer(state: State, f: Filter, i: Item, asOf: real)
    ensures |Offer(state, f, i, asOf)| <= 1
  {
  }

  function OfferAt(t: seq<Structure>, at: Place, asOf: real): seq<Entry> {
    if at.pass < |t| && at.item < |t[at.pass].items| then Offer(t[at.pass].state, t[at.pass].filter, t[at.pass].items[at.item], asOf)
    else []
  }

  /** The places of a list of offers: every place that offers an entry, in the order of the scan. */
  ghost predicate Trace(t: seq<Structure>, asOf: real, offers: seq<Entry>, places: seq<Place>) {
    && |places| == |offers|
    && (forall i :: 0 <= i < |places| ==> places[i].pass < |t| && OfferAt(t, places[i], asOf) == [offers[i]])
    && (forall i, j :: 0 <= i < j < |places| ==> Earlier(places[i], places[j]))
    && (forall at :: OfferAt(t, at, asOf) != [] ==> at in places)
  }

  lemma {:induction false} OffersHavePlaces(t: seq<Structure>, asOf: real) returns (places: seq<Place>)
    ensures Trace(t, asOf, Offers(t, asOf), places)
    decreases |t|
  {
    hide Offer, Offers, OffersOf;
    if t == [] {
      places := [];
      NoPassNoOffers(asOf);
    } else {
      var n := |t| - 1;
      var rest := OffersHavePlaces(t[..n], asOf);
      var ks := OfferingItems(t[n].state, t[n].filter, t[n].items, asOf);
      OffersMore(t[..n], t[n], asOf);
      assert t == t[..n] + [t[n]];
      places := rest + seq(|ks|, i requires 0 <= i < |ks| => Place(n, ks[i]));
      MorePlaces(t, asOf, Offers(t[..n], asOf), rest, OffersOf(t[n].state, t[n].filter, t[n].items, asOf), ks, places);
    }
  }

  lemma NoPassNoOffers(asOf: real)
    ensures Offers([], asOf) == []
  {
  }

  /** The places of the last pass come behind the others. */
  lemma MorePlaces(t: seq<Structure>, asOf: real, former: seq<Entry>, rest: seq<Place>, more: seq<Entry>, ks: seq<nat>, places: seq<Place>)
    requires t != [] && Trace(t[..|t| - 1], asOf, former, rest) && |ks| == |more| && Rises(ks)
    requires forall i :: 0 <= i < |ks| ==> OfferAt(t, Place(|t| - 1, ks[i]), asOf) == [more[i]]
    requires forall k: nat :: OfferAt(t, Place(|t| - 1, k), asOf) != [] ==> k in ks
    requires places == rest + seq(|ks|, i requires 0 <= i < |ks| => Place(|t| - 1, ks[i]))
    ensures Trace(t, asOf, former + more, places)
  {
    hide OfferAt, Earlier;
    var n := |t| - 1;
    forall at: Place | at.pass < n
      ensures OfferAt(t, at, asOf) == OfferAt(t[..n], at, asOf)
    {
      SamePassSameOffer(t, at, asOf);
    }
    StillRising(rest, n, ks, places);
    AllPlacesThere(t, asOf, rest, ks, places);
  }

  lemma SamePassSameOffer(t: seq<Structure>, at: Place, asOf: real)
    requires at.pass < |t| - 1
    ensures OfferAt(t, at, asOf) == OfferAt(t[..|t| - 1], at, asOf)
  {
  }

  lemma StillRising(rest: seq<Place>, n: nat, ks: seq<nat>, places: seq<Place>)
    requires (forall i :: 0 <= i < |rest| ==> rest[i].pass < n) && Rises(ks)
    requires forall i, j :: 0 <= i < j < |rest| ==> Earlier(rest[i], rest[j])
    requires places == rest + seq(|ks|, i requires 0 <= i < |ks| => Place(n, ks[i]))
    ensures forall i, j :: 0 <= i < j < |places| ==> Earlier(places[i], places[j])
  {
    forall i, j | 0 <= i < j < |places|
      ensures Earlier(places[i], places[j])
    {
      if j < |rest| {
        assert Earlier(rest[i], rest[j]);
      } else if i >= |rest| {
        assert ks[i - |rest|] < ks[j - |rest|];
      }
    }
  }

  lemma AllPlacesThere(t: seq<Structure>, asOf: real, rest: seq<Place>, ks: seq<nat>, places: seq<Place>)
    requires t != [] && forall at: Place :: at.pass < |t| - 1 && OfferAt(t, at, asOf) != [] ==> at in rest
    requires forall k: nat :: OfferAt(t, Place(|t| - 1, k), asOf) != [] ==> k in ks
    requires places == rest + seq(|ks|, i requires 0 <= i < |ks| => Place(|t| - 1, ks[i]))
    ensures forall at: Place :: OfferAt(t, at, asOf) != [] ==> at in places
  {
    hide OfferAt;
    forall at: Place | OfferAt(t, at, asOf) != []
      ensures at in places
    {
      PassIsThere(t, at, asOf);
      if at.pass < |t| - 1 {
        assert at in rest;
      } else {
        assert at == Place(|t| - 1, at.item);
        assert at.item in ks;
        var i :| 0 <= i < |ks| && ks[i] == at.item;
        assert places[|rest| + i] == at;
      }
    }
  }

  lemma PassIsThere(t: seq<Structure>, at: Place, asOf: real)
    requires OfferAt(t, at, asOf) != []
    ensures at.pass < |t|
  {
  }

  /** No earlier entry has the id of the k-th. */
  ghost predicate FirstAt(entries: seq<Entry>, k: nat) {
    k < |entries| && forall j :: 0 <= j < k ==> entries[j].id != entries[k].id
  }

  lemma StaysFirst(entries: seq<Entry>, k: nat)
    requires entries != [] && FirstAt(entries[..|entries| - 1], k)
    ensures FirstAt(entries, k) && entries[k] == entries[..|entries| - 1][k]
  {
    assert forall j :: 0 <= j <= k ==> entries[j] == entries[..|entries| - 1][j];
  }

  lemma LastIsFirst(entries: seq<Entry>)
    requires entries != [] && entries[|entries| - 1].id !in IdsOf(entries[..|entries| - 1])
    ensures FirstAt(entries, |entries| - 1)
  {
    IdsAreIn(entries[..|entries| - 1]);
    assert forall j :: 0 <= j < |entries| - 1 ==> entries[j] == entries[..|entries| - 1][j];
  }

  /** Where the listed entries stand among the offers: each at the first offer of its id. */
  lemma {:induction false} FirstsHavePlaces(entries: seq<Entry>) returns (ks: seq<nat>)
    ensures |ks| == |Firsts(entries)| && Rises(ks)
    ensures forall i :: 0 <= i < |ks| ==> FirstAt(entries, ks[i]) && Firsts(entries)[i] == entries[ks[i]]
    decreases |entries|
  {
    hide IdsOf, FirstIn, DistinctIds, FirstAt, Firsts, Rises;
    if entries == [] {
      ks := [];
      NothingFirst();
      NothingRises();
    } else {
      FirstsMore(entries[..|entries| - 1], entries[|entries| - 1]);
      assert entries == entries[..|entries| - 1] + [entries[|entries| - 1]];
      var n := |entries| - 1;
      var rest := entries[..n];
      ks := FirstsHavePlaces(rest);
      forall i | 0 <= i < |ks|
        ensures FirstAt(entries, ks[i]) && ks[i] < n && rest[ks[i]] == entries[ks[i]]
      {
        StaysFirst(entries, ks[i]);
        FirstIsWithin(rest, ks[i]);
      }
      FirstsAreFirst(rest);
      if entries[n].id !in IdsOf(Firsts(rest)) {
        LastIsFirst(entries);
        RisesMore(ks, n);
        ks := ks + [n];
      }
    }
  }

  lemma NothingRises()
    ensures Rises([])
  {
  }

  lemma RisesMore(ks: seq<nat>, k: nat)
    requires Rises(ks) && forall i :: 0 <= i < |ks| ==> ks[i] < k
    ensures Rises(ks + [k])
  {
  }

  lemma NothingFirst()
    ensures Firsts([]) == []
  {
  }

  lemma FirstIsWithin(entries: seq<Entry>, k: nat)
    requires FirstAt(entries, k)
    ensures k < |entries|
  {
  }

  lemma IdsAreIn(entries: seq<Entry>)
    ensures forall j :: 0 <= j < |entries| ==> entries[j].id in IdsOf(entries)
  {
    assert forall j :: 0 <= j < |entries| ==> entries[j] in entries;
  }

  /** A complete scan, or one whose second pass was cut, lists in order what stands anywhere. */
  lemma ListedInScanOrder(s: Snapshot, second: nat) returns (places: seq<Place>)
    requires second <= |s.ready|
    ensures ListsInOrder(s, second, Firsts(Offers(CutStructures(s, second), s.asOf)), places)
  {
    hide Offers, Firsts, CutStructures, OfferAt, StandsAt;
    var t := CutStructures(s, second);
    var offers := Offers(t, s.asOf);
    var all := OffersHavePlaces(t, s.asOf);
    var ks := FirstsHavePlaces(offers);
    FirstsAreFirst(offers);
    places := seq(|ks|, i requires 0 <= i < |ks| => all[ks[i]]);
    forall at, e
      ensures StandsAt(s, second, at, e) <==> OfferAt(t, at, s.asOf) == [e]
    {
      StandingIsOffered(s, second, at, e);
    }
    PlacesAreListed(s, second, offers, all, Firsts(offers), ks, places);
  }

  lemma PlacesAreListed(s: Snapshot, second: nat, offers: seq<Entry>, all: seq<Place>, listed: seq<Entry>, ks: seq<nat>, places: seq<Place>)
    requires second <= |s.ready| && Trace(CutStructures(s, second), s.asOf, offers, all)
    requires forall at, e :: StandsAt(s, second, at, e) <==> OfferAt(CutStructures(s, second), at, s.asOf) == [e]
    requires |ks| == |listed| && Rises(ks) && IdsOf(listed) == IdsOf(offers)
    requires forall i :: 0 <= i < |ks| ==> ks[i] < |offers| == |all| && FirstAt(offers, ks[i]) && listed[i] == offers[ks[i]]
    requires |places| == |ks| && forall i :: 0 <= i < |ks| ==> places[i] == all[ks[i]]
    ensures ListsInOrder(s, second, listed, places)
  {
    hide CutStructures, OfferAt, StandsAt, Earlier, FirstAt, IdsOf;
    forall at, e | StandsAt(s, second, at, e)
      ensures exists i :: 0 <= i < |listed| && listed[i].id == e.id
      ensures forall i :: 0 <= i < |listed| && Earlier(at, places[i]) ==> e.id != listed[i].id
    {
      assert at in all;
      var j :| 0 <= j < |all| && all[j] == at;
      assert offers[j] == e;
      OfferedIsListed(offers, listed, j);
      forall i | 0 <= i < |listed| && Earlier(at, places[i])
        ensures e.id != listed[i].id
      {
        EarlierIsOther(offers, all, j, ks[i]);
      }
    }
  }

  lemma OfferedIsListed(offers: seq<Entry>, listed: seq<Entry>, j: nat)
    requires j < |offers| && IdsOf(listed) == IdsOf(offers)
    ensures exists i :: 0 <= i < |listed| && listed[i].id == offers[j].id
  {
    IdsAreIn(offers);
    assert offers[j].id in IdsOf(listed);
    var f :| f in listed && f.id == offers[j].id;
  }

  lemma EarlierIsOther(offers: seq<Entry>, all: seq<Place>, j: nat, k: nat)
    requires |all| == |offers| && (forall i, m :: 0 <= i < m < |all| ==> Earlier(all[i], all[m]))
    requires j < |all| && FirstAt(offers, k) && Earlier(all[j], all[k])
    ensures offers[j].id != offers[k].id
  {
    OneIsEarlier(all[j], all[k]);
    hide Earlier;
    if k < j {
      assert false;
    }
  }

  lemma OneIsEarlier(a: Place, b: Place)
    requires Earlier(a, b)
    ensures a != b && !Earlier(b, a)
  {
  }

  lemma StandingIsOffered(s: Snapshot, second: nat, at: Place, e: Entry)
    requires second <= |s.ready|
    ensures StandsAt(s, second, at, e) <==> OfferAt(CutStructures(s, second), at, s.asOf) == [e]
  {
    hide Names, DelayRanOut, IdOf, IsReleased;
    var t := CutStructures(s, second);
    if at.pass < 5 && at.item < |t[at.pass].items| {
      PayloadSays(t[at.pass].items[at.item].payload, s.asOf);
    }
  }

  lemma NothingListed(asOf: real)
    ensures Firsts(Offers([], asOf)) == [] && IdsOf([]) == {}
  {
  }

  // ----- What the list contains -----

  function ItemIds(items: seq<Item>): set<Id> {
    set i | i in items && IdOf(i.payload).Some? :: IdOf(i.payload).value
  }

  lemma {:induction false} OfferedIds(state: State, f: Filter, items: seq<Item>, asOf: real)
    ensures forall id :: id in IdsOf(OffersOf(state, f, items, asOf)) <==>
              exists i :: i in items && IdOf(i.payload) == Some(id) && Passes(f, i.payload, asOf)
    decreases |items|
  {
    if items != [] {
      var rest := OffersOf(state, f, items[1..], asOf);
      OfferedIds(state, f, items[1..], asOf);
      IdsOfConcat(Offer(state, f, items[0], asOf), rest);
      hide IdsOf, OffersOf, Passes, IdOf;
      assert forall i :: i in items <==> i == items[0] || i in items[1..];
      OfferIds(state, f, items[0], asOf);
    } else {
      assert IdsOf([]) == {};
    }
  }

  lemma OfferIds(state: State, f: Filter, i: Item, asOf: real)
    ensures forall id :: id in IdsOf(Offer(state, f, i, asOf)) <==> IdOf(i.payload) == Some(id) && Passes(f, i.payload, asOf)
    ensures OffersOf(state, f, [], asOf) == []
  {
  }

  lemma IdsOfConcat(a: seq<Entry>, b: seq<Entry>)
    ensures IdsOf(a + b) == IdsOf(a) + IdsOf(b)
  {
    assert forall e :: e in a + b <==> e in a || e in b;
  }

  /** The two passes over the ready list offer every id in it, each item in exactly one of them. */
  lemma ReadyListIsSplit(items: seq<Item>, asOf: real)
    ensures IdsOf(OffersOf(Ready, OnlyReady, items, asOf)) + IdsOf(OffersOf(Released, OnlyReleased, items, asOf)) == ItemIds(items)
    ensures forall i :: i in items && IdOf(i.payload).Some? ==>
              (Offer(Ready, OnlyReady, i, asOf) == [] <==> Offer(Released, OnlyReleased, i, asOf) != [])
  {
    OfferedIds(Ready, OnlyReady, items, asOf);
    OfferedIds(Released, OnlyReleased, items, asOf);
    hide IdsOf, OffersOf, IdOf, IsReleased;
    forall id
      ensures id in ItemIds(items) <==> exists i :: i in items && IdOf(i.payload) == Some(id)
    {
    }
  }

  lemma AllAreOffered(state: State, items: seq<Item>, asOf: real)
    ensures IdsOf(OffersOf(state, All, items, asOf)) == ItemIds(items)
  {
    OfferedIds(state, All, items, asOf);
    hide IdsOf, OffersOf, IdOf;
    forall id
      ensures id in ItemIds(items) <==> exists i :: i in items && IdOf(i.payload) == Some(id)
    {
    }
  }

  /** A complete scan lists every valid id of the snapshot, each exactly once, under the first structure that offers it. */
  lemma CompleteScanListsEverything(s: Snapshot)
    ensures var listed := Firsts(Offers(Structures(s), s.asOf));
            && IdsOf(listed) == ItemIds(s.ready) + ItemIds(s.reserved) + ItemIds(s.delayed) + ItemIds(s.releasedDelayed)
            && DistinctIds(listed)
            && forall e :: e in listed ==> FirstIn(Offers(Structures(s), s.asOf), e)
  {
    FirstsAreFirst(Offers(Structures(s), s.asOf));
    OffersOfFive(Structures(s), s.asOf);
    ReadyListIsSplit(s.ready, s.asOf);
    AllAreOffered(Reserved, s.reserved, s.asOf);
    AllAreOffered(Delayed, s.delayed, s.asOf);
    AllAreOffered(Released, s.releasedDelayed, s.asOf);
    hide Offers, OffersOf, IdsOf, Firsts, FirstIn, ItemIds;
  }

  /** The ids that a structure's items offer. */
  function OfferedBy(t: Structure, asOf: real): set<Id> {
    IdsOf(OffersOf(t.state, t.filter, t.items, asOf))
  }

  lemma OfferedFrom(t: seq<Structure>, i: nat, asOf: real)
    requires i < |t|
    ensures IdsOf(Offers(t[i..], asOf)) == OfferedBy(t[i], asOf) + IdsOf(Offers(t[i + 1..], asOf))
  {
    assert t[i..][1..] == t[i + 1..];
    IdsOfConcat(OffersOf(t[i].state, t[i].filter, t[i].items, asOf), Offers(t[i + 1..], asOf));
  }

  lemma OffersOfFive(t: seq<Structure>, asOf: real)
    requires |t| == 5
    ensures IdsOf(Offers(t, asOf)) ==
              OfferedBy(t[0], asOf) + OfferedBy(t[1], asOf) + OfferedBy(t[2], asOf) + OfferedBy(t[3], asOf) + OfferedBy(t[4], asOf)
  {
    OfferedFrom(t, 0, asOf);
    OfferedFrom(t, 1, asOf);
    OfferedFrom(t, 2, asOf);
    OfferedFrom(t, 3, asOf);
    OfferedFrom(t, 4, asOf);
    assert t[0..] == t && Offers(t[5..], asOf) == [] && IdsOf([]) == {};
    hide Offers, OfferedBy, IdsOf;
    UnionOfFive(OfferedBy(t[0], asOf), OfferedBy(t[1], asOf), OfferedBy(t[2], asOf), OfferedBy(t[3], asOf), OfferedBy(t[4], asOf));
  }

  lemma UnionOfFive<T>(a: set<T>, b: set<T>, c: set<T>, d: set<T>, e: set<T>)
    ensures a + (b + (c + (d + (e + {})))) == a + b + c + d + e
  {
  }

  /** The whole queue, from its live structures: nothing valid is left out, whichever side of the moment it is due. */
  lemma SnapshotCoversTheQueue(asOf: real, ready: seq<Item>, reserved: seq<Item>, delayed: seq<Item>)
    ensures IdsOf(Firsts(Offers(Structures(CreateSnapshot(asOf, ready, reserved, delayed)), asOf)))
         == ItemIds(ready) + ItemIds(reserved) + ItemIds(delayed)
  {
    CompleteScanListsEverything(CreateSnapshot(asOf, ready, reserved, delayed));
    DelayedIsSplit(delayed, asOf);
    hide IdOf, Firsts, Offers, Structures, DueAfter, DueBy;
    var a, b := DueAfter(delayed, asOf), DueBy(delayed, asOf);
    assert forall i :: i in delayed <==> i in multiset(a) + multiset(b);
    assert ItemIds(a) + ItemIds(b) == ItemIds(delayed);
  }

  /** The ids of the listed items that were delayed and have been released since, and of the others. */
  function ReleasedIds(items: seq<Item>, asOf: real): set<Id> {
    set i | i in items && IdOf(i.payload).Some? && IsReleased(i.payload, asOf) :: IdOf(i.payload).value
  }

  function ReadyIds(items: seq<Item>, asOf: real): set<Id> {
    set i | i in items && IdOf(i.payload).Some? && !IsReleased(i.payload, asOf) :: IdOf(i.payload).value
  }

  lemma ReadyPasses(items: seq<Item>, asOf: real)
    ensures IdsOf(OffersOf(Ready, OnlyReady, items, asOf)) == ReadyIds(items, asOf)
    ensures IdsOf(OffersOf(Released, OnlyReleased, items, asOf)) == ReleasedIds(items, asOf)
  {
    OfferedIds(Ready, OnlyReady, items, asOf);
    OfferedIds(Released, OnlyReleased, items, asOf);
    hide IdsOf, OffersOf, IdOf, IsReleased;
  }

  lemma ReleasedInParts(items: seq<Item>, second: nat, asOf: real)
    requires second <= |items|
    ensures ReleasedIds(items, asOf) == ReleasedIds(items[..second], asOf) + ReleasedIds(items[second..], asOf)
  {
    hide IdOf, IsReleased;
    assert items == items[..second] + items[second..];
    assert forall i :: i in items <==> i in items[..second] || i in items[second..];
  }

  /** The ids that a scan lists when its second pass over the ready list sees the first `second` items. */
  function ListedByCut(s: Snapshot, second: nat): set<Id>
    requires second <= |s.ready|
  {
    ReleasedIds(s.ready[..second], s.asOf) + ReadyIds(s.ready, s.asOf)
    + ItemIds(s.reserved) + ItemIds(s.delayed) + ItemIds(s.releasedDelayed)
  }

  lemma CutLists(s: Snapshot, second: nat)
    requires second <= |s.ready|
    ensures IdsOf(Firsts(Offers(CutStructures(s, second), s.asOf))) == ListedByCut(s, second)
  {
    var t := CutStructures(s, second);
    FirstsAreFirst(Offers(t, s.asOf));
    OffersOfFive(t, s.asOf);
    ReadyPasses(s.ready, s.asOf);
    ReadyPasses(s.ready[..second], s.asOf);
    AllAreOffered(Reserved, s.reserved, s.asOf);
    AllAreOffered(Delayed, s.delayed, s.asOf);
    AllAreOffered(Released, s.releasedDelayed, s.asOf);
    hide Offers, OffersOf, IdsOf, Firsts, ItemIds, ReleasedIds, ReadyIds;
  }

  /**
    The one mishap that goes unnoticed is that the ready list vanishes during its second pass. What is
    then missing are the released jobs of the part not seen that nothing else offers, so that the list
    is complete exactly when all of those are offered elsewhere.
  */
  lemma CutPassIsCompleteExactlyWhenTheRestIsOffered(s: Snapshot, second: nat)
    requires second <= |s.ready|
    ensures var complete, cut := IdsOf(Firsts(Offers(Structures(s), s.asOf))), IdsOf(Firsts(Offers(CutStructures(s, second), s.asOf)));
            && cut <= complete
            && complete - cut == ReleasedIds(s.ready[second..], s.asOf) - ListedByCut(s, second)
            && (cut == complete <==> ReleasedIds(s.ready[second..], s.asOf) <= ListedByCut(s, second))
  {
    hide Firsts, Offers, IdsOf, ReleasedIds, ReadyIds, ItemIds;
    CutLists(s, second);
    CutLists(s, |s.ready|);
    assert s.ready[..|s.ready|] == s.ready && CutStructures(s, |s.ready|) == Structures(s);
    ReleasedInParts(s.ready, second, s.asOf);
  }

  /** Such a job can be missing. */
  lemma LostSecondPassDropsReleasedJobs() returns (s: Snapshot)
    ensures IdsOf(Firsts(Offers(CutStructures(s, 0), s.asOf))) != IdsOf(Firsts(Offers(Structures(s), s.asOf)))
  {
    var p := Payload(Text("job"), Missing, false, false, Number(1.0), NoNumber, Number(1.0));
    s := Snapshot(5.0, [Item(p, None)], [], [], []);
    assert IsReleased(p, 5.0) && IdOf(p) == Some("job");
    assert s.ready[0..] == s.ready && s.ready[0] in s.ready;
    assert "job" in ReleasedIds(s.ready[0..], s.asOf) && "job" !in ListedByCut(s, 0);
    hide Firsts, Offers, IdsOf, CutStructures, Structures, ListedByCut, ReleasedIds;
    CutPassIsCompleteExactlyWhenTheRestIsOffered(s, 0);
  }
}
