/**
  Keyset paging over Redis sorted sets: entries are ordered by score and then by id, a cursor
  names the last entry shown, and the next page starts at the first entry beyond it. An id
  stands for its rank in the byte order by which Redis breaks ties.
*/
module KeysetPaging {
  import opened Options

  type Id = int

  type Score = real

  datatype Entry = Entry(score: Score, id: Id)

  datatype Position = Position(score: Score, id: Id, offset: nat)

  datatype Page = Page(ids: seq<Id>, total: nat, currentOffset: nat, next: Option<Position>)

  // ----- Order -----

  predicate Less(a: Entry, b: Entry) {
    a.score < b.score || (a.score == b.score && a.id < b.id)
  }

  /** `a` comes before `b` in the direction of the walk; `reverse` walks from the highest entry. */
  predicate Before(a: Entry, b: Entry, reverse: bool) {
    if reverse then Less(b, a) else Less(a, b)
  }

  ghost predicate Ordered(t: seq<Entry>, reverse: bool) {
    forall i, j :: 0 <= i < j < |t| ==> Before(t[i], t[j], reverse)
  }

  ghost predicate DistinctIds(t: seq<Entry>) {
    forall i, j :: 0 <= i < j < |t| ==> t[i].id != t[j].id
  }

  /** `t` walks exactly the members of the sorted set `z`. */
  ghost predicate Walks(t: seq<Entry>, z: map<Id, Score>, reverse: bool) {
    && Ordered(t, reverse)
    && (forall e :: e in t <==> e.id in z && z[e.id] == e.score)
  }

  function EntryOf(p: Position): Entry {
    Entry(p.score, p.id)
  }

  function Ids(t: seq<Entry>): (r: seq<Id>)
    ensures |r| == |t| && forall i :: 0 <= i < |t| ==> r[i] == t[i].id
  {
    seq(|t|, i requires 0 <= i < |t| => t[i].id)
  }

  function Reversed(t: seq<Entry>): (r: seq<Entry>)
    ensures |r| == |t| && forall i :: 0 <= i < |t| ==> r[i] == t[|t| - 1 - i]
  {
    seq(|t|, i requires 0 <= i < |t| => t[|t| - 1 - i])
  }

  function Walk(z: seq<Entry>, reverse: bool): (t: seq<Entry>)
    ensures |t| == |z|
  {
    if reverse then Reversed(z) else z
  }

  function Take(t: seq<Entry>, n: nat): (r: seq<Entry>)
    ensures |r| == if n < |t| then n else |t|
    ensures forall i :: 0 <= i < |r| ==> r[i] == t[i]
  {
    if n < |t| then t[..n] else t
  }

  /** How many leading entries of the walk lie at or before the cursor. */
  function Cut(t: seq<Entry>, c: Entry, reverse: bool): (k: nat)
    ensures k <= |t|
  {
    if t == [] || Before(c, t[0], reverse) then 0 else 1 + Cut(t[1..], c, reverse)
  }

  /** What is left of the walk `t` beyond the cursor. */
  function Beyond(t: seq<Entry>, after: Option<Position>, reverse: bool): seq<Entry> {
    if after.None? then t else t[Cut(t, EntryOf(after.value), reverse)..]
  }

  function OffsetOf(after: Option<Position>): nat {
    if after.None? then 0 else after.value.offset
  }

  /** The page after a cursor: the next `limit` entries, and a cursor while any remain. */
  function PageOf(t: seq<Entry>, after: Option<Position>, limit: nat, reverse: bool): Page {
    var rest := Beyond(t, after, reverse);
    var shown := Take(rest, limit);
    Page(Ids(shown), |t|, OffsetOf(after), NextOf(rest, OffsetOf(after), limit))
  }

  function NextOf(rest: seq<Entry>, offset: nat, limit: nat): Option<Position> {
    if 0 < limit < |rest| then Some(Position(rest[limit - 1].score, rest[limit - 1].id, offset + limit)) else None
  }

  lemma WalkIsOrdered(z: seq<Entry>, reverse: bool)
    requires Ordered(z, false)
    ensures Ordered(Walk(z, reverse), reverse)
  {
  }

  /** An ordered walk splits at the cursor. */
  lemma {:induction false} CutSplits(t: seq<Entry>, c: Entry, reverse: bool)
    requires Ordered(t, reverse)
    ensures var k := Cut(t, c, reverse);
            && (forall i :: 0 <= i < k ==> !Before(c, t[i], reverse))
            && (forall i :: k <= i < |t| ==> Before(c, t[i], reverse))
    decreases |t|
  {
    if t != [] {
      if Before(c, t[0], reverse) {
        assert forall i :: 0 < i < |t| ==> Before(t[0], t[i], reverse);
      } else {
        CutSplits(t[1..], c, reverse);
        assert forall i :: 0 < i < |t| ==> t[i] == t[1..][i - 1];
      }
    }
  }

  /** The entries beyond a cursor are the suffix behind its boundary. */
  lemma {:induction false} BeyondFrom(t: seq<Entry>, c: Position, k: nat, reverse: bool)
    requires k <= |t|
    requires forall i :: 0 <= i < k ==> !Before(EntryOf(c), t[i], reverse)
    requires k < |t| ==> Before(EntryOf(c), t[k], reverse)
    ensures Cut(t, EntryOf(c), reverse) == k && Beyond(t, Some(c), reverse) == t[k..]
    decreases k
  {
    if k > 0 {
      BeyondFrom(t[1..], c, k - 1, reverse);
    }
  }

  lemma BeyondCovers(t: seq<Entry>, after: Option<Position>, e: Entry, reverse: bool)
    requires Ordered(t, reverse) && e in t
    ensures e in Beyond(t, after, reverse) <==> (after.Some? ==> Before(EntryOf(after.value), e, reverse))
  {
    if after.Some? {
      var k := Cut(t, EntryOf(after.value), reverse);
      CutSplits(t, EntryOf(after.value), reverse);
      var i :| 0 <= i < |t| && t[i] == e;
      assert k <= i ==> t[k..][i - k] == e;
    }
  }

  lemma BeyondIsOrdered(t: seq<Entry>, after: Option<Position>, reverse: bool)
    requires Ordered(t, reverse)
    ensures Ordered(Beyond(t, after, reverse), reverse)
  {
  }

  lemma OrderedTail(t: seq<Entry>, reverse: bool)
    requires Ordered(t, reverse) && t != []
    ensures Ordered(t[1..], reverse) && (|t| > 1 ==> Before(t[0], t[1], reverse))
  {
  }

  /** Two walks with the same members are the same walk. */
  lemma {:induction false} WalkIsUnique(t: seq<Entry>, u: seq<Entry>, reverse: bool)
    requires Ordered(t, reverse) && Ordered(u, reverse)
    requires forall e :: e in t <==> e in u
    ensures t == u
    decreases |t|
  {
    assert u != [] ==> u[0] in u;
    if t != [] {
      assert t[0] in t && t[0] in u && u[0] in u && u[0] in t;
      var i :| 0 <= i < |u| && u[i] == t[0];
      var j :| 0 <= j < |t| && t[j] == u[0];
      assert t[0] == u[0];
      forall e
        ensures e in t[1..] <==> e in u[1..]
      {
        assert e in t <==> e == t[0] || e in t[1..];
        assert e in u <==> e == u[0] || e in u[1..];
      }
      WalkIsUnique(t[1..], u[1..], reverse);
    }
  }

  // ----- The sorted-set commands -----

  /** ZCOUNT of the scores below `score`. */
  function CountBelow(z: seq<Entry>, score: Score): (n: nat)
    ensures n <= |z|
  {
    if z == [] then 0 else (if z[0].score < score then 1 else 0) + CountBelow(z[1..], score)
  }

  /** ZCOUNT of one score. */
  function CountAt(z: seq<Entry>, score: Score): (n: nat)
    ensures n <= |z|
  {
    if z == [] then 0 else (if z[0].score == score then 1 else 0) + CountAt(z[1..], score)
  }

  /** ZRANGE of ranks from `start`, at most `limit` of them. */
  function Range(z: seq<Entry>, start: nat, limit: nat): seq<Entry> {
    if start < |z| then Take(z[start..], limit) else []
  }

  /** The two counts cut an ordered set into lower, equal and higher scores. */
  lemma {:induction false} CountsCut(z: seq<Entry>, score: Score)
    requires Ordered(z, false)
    ensures var lower, same := CountBelow(z, score), CountAt(z, score);
            && lower + same <= |z|
            && (forall i :: 0 <= i < lower ==> z[i].score < score)
            && (forall i :: lower <= i < lower + same ==> z[i].score == score)
            && (forall i :: lower + same <= i < |z| ==> z[i].score > score)
    decreases |z|
  {
    if z != [] {
      var rest := z[1..];
      CountsCut(rest, score);
      assert forall i :: 0 <= i < |rest| ==> rest[i] == z[i + 1];
      assert forall i :: 0 < i < |z| ==> z[i] == rest[i - 1] && Before(z[0], z[i], false);
      assert CountBelow(rest, score) > 0 ==> rest[0].score < score;
      assert CountAt(rest, score) > 0 ==> rest[CountBelow(rest, score)].score == score;
    }
  }

  // ----- Reading one page -----

  /**
    Binary search among the entries whose score equals the cursor's: the number of them
    that lie before the boundary, which includes the cursor's own id or leaves it out.
  */
  method TieBoundary(z: seq<Entry>, lower: nat, same: nat, cursor: Id, includeEqual: bool) returns (boundary: nat)
    requires Ordered(z, false) && lower + same <= |z|
    requires forall i :: lower <= i < lower + same ==> z[i].score == z[lower].score
    ensures boundary <= same
    ensures forall i :: lower <= i < lower + boundary ==> z[i].id < cursor || (includeEqual && z[i].id == cursor)
    ensures forall i :: lower + boundary <= i < lower + same ==> z[i].id > cursor || (!includeEqual && z[i].id == cursor)
  {
    var low, high := 0, same;
    while low < high
      invariant 0 <= low <= high <= same
      invariant forall i :: lower <= i < lower + low ==> z[i].id < cursor || (includeEqual && z[i].id == cursor)
      invariant forall i :: lower + high <= i < lower + same ==> z[i].id > cursor || (!includeEqual && z[i].id == cursor)
    {
      var middle := (low + high) / 2;
      var member := z[lower + middle].id;
      assert forall i :: lower <= i < lower + middle ==> Before(z[i], z[lower + middle], false);
      assert forall i :: lower + middle < i < lower + same ==> Before(z[lower + middle], z[i], false);
      if member < cursor || (includeEqual && member == cursor) {
        low := middle + 1;
      } else {
        high := middle;
      }
    }
    boundary := low;
  }

  /** The next `limit` entries beyond the cursor, located by rank. */
  method PageEntries(z: seq<Entry>, after: Option<Position>, limit: nat, reverse: bool) returns (entries: seq<Entry>)
    requires Ordered(z, false)
    ensures entries == Take(Beyond(Walk(z, reverse), after, reverse), limit)
  {
    if after.None? {
      return Range(Walk(z, reverse), 0, limit);
    }
    var c := after.value;
    var lower := CountBelow(z, c.score);
    var same := CountAt(z, c.score);
    CountsCut(z, c.score);
    var boundary := TieBoundary(z, lower, same, c.id, !reverse);
    var start := if reverse then |z| - (lower + boundary) else lower + boundary;
    WalkIsOrdered(z, reverse);
    assert forall i :: 0 <= i < |z| ==>
             (i < lower + boundary <==> if reverse then Less(z[i], EntryOf(c)) else !Less(EntryOf(c), z[i]));
    BeyondFrom(Walk(z, reverse), c, start, reverse);
    entries := Range(Walk(z, reverse), start, limit);
  }

  predicate LiesBeyond(e: Entry, after: Option<Position>, reverse: bool) {
    after.None? || Before(EntryOf(after.value), e, reverse)
  }

  /**
    The page that belongs behind a cursor, said of the members of `z` alone: in order, members beyond the
    cursor, before every other member beyond it, and as many as asked for while there are others. It counts
    the whole set, and its cursor names the last entry shown just while another one is left.
  */
  ghost predicate IsPage(z: seq<Entry>, after: Option<Position>, limit: nat, reverse: bool, page: Page, shown: seq<Entry>) {
    && page.ids == Ids(shown) && Ordered(shown, reverse) && |shown| <= limit
    && (forall e :: e in shown ==> e in z && LiesBeyond(e, after, reverse))
    && (forall e, f :: f in shown && e in z && LiesBeyond(e, after, reverse) && e !in shown ==> Before(f, e, reverse))
    && (forall e :: e in z && LiesBeyond(e, after, reverse) && e !in shown ==> |shown| == limit)
    && page.total == |z|
    && page.currentOffset == (if after.Some? then after.value.offset else 0)
    && (page.next.Some? <==> limit > 0 && exists e :: e in z && LiesBeyond(e, after, reverse) && e !in shown)
    && (page.next.Some? ==> |shown| == limit > 0 && EntryOf(page.next.value) == shown[limit - 1]
                            && page.next.value.offset == page.currentOffset + limit)
  }

  lemma PageOfIsPage(t: seq<Entry>, after: Option<Position>, limit: nat, reverse: bool)
    requires Ordered(t, reverse)
    ensures IsPage(t, after, limit, reverse, PageOf(t, after, limit, reverse), Take(Beyond(t, after, reverse), limit))
  {
    hide PageOf, Beyond, Before, LiesBeyond, Take, Ordered, NextOf;
    var rest := Beyond(t, after, reverse);
    BeyondMembers(t, after, reverse);
    BeyondIsOrdered(t, after, reverse);
    HeadOfWalk(rest, limit, reverse);
    PageParts(t, after, limit, reverse);
    if limit < |rest| {
      assert rest[limit] in rest;
    }
  }

  lemma BeyondMembers(t: seq<Entry>, after: Option<Position>, reverse: bool)
    requires Ordered(t, reverse)
    ensures forall e :: e in Beyond(t, after, reverse) <==> e in t && LiesBeyond(e, after, reverse)
  {
    assert forall e :: e in Beyond(t, after, reverse) ==> e in t;
    forall e | e in t
      ensures e in Beyond(t, after, reverse) <==> LiesBeyond(e, after, reverse)
    {
      BeyondCovers(t, after, e, reverse);
    }
  }

  lemma PageParts(t: seq<Entry>, after: Option<Position>, limit: nat, reverse: bool)
    ensures var rest, page := Beyond(t, after, reverse), PageOf(t, after, limit, reverse);
            var shown := Take(rest, limit);
            && page.ids == Ids(shown) && page.total == |t| && |shown| <= limit && (|shown| < limit ==> |shown| == |rest|)
            && page.currentOffset == (if after.Some? then after.value.offset else 0)
            && (page.next.Some? <==> 0 < limit < |rest|)
            && (page.next.Some? ==> |shown| == limit && EntryOf(page.next.value) == shown[limit - 1]
                                    && page.next.value.offset == page.currentOffset + limit)
  {
    hide Beyond;
  }

  /** The first entries of a walk come before the others, and they are all of it unless there are more than asked for. */
  lemma HeadOfWalk(t: seq<Entry>, n: nat, reverse: bool)
    requires Ordered(t, reverse)
    ensures Ordered(Take(t, n), reverse) && forall e :: e in Take(t, n) ==> e in t
    ensures forall e, f :: f in Take(t, n) && e in t && e !in Take(t, n) ==> Before(f, e, reverse)
    ensures forall e :: e in t && e !in Take(t, n) ==> n < |t|
    ensures n < |t| ==> t[n] !in Take(t, n)
  {
    hide Before;
    var shown := Take(t, n);
    assert forall i :: 0 <= i < |shown| ==> shown[i] in shown;
    forall e, f | f in shown && e in t && e !in shown
      ensures Before(f, e, reverse)
    {
      var i :| 0 <= i < |shown| && shown[i] == f;
      var j :| 0 <= j < |t| && t[j] == e;
      assert Before(t[i], t[j], reverse);
    }
    if n < |t| && t[n] in shown {
      var i :| 0 <= i < |shown| && shown[i] == t[n];
      assert Before(t[i], t[n], reverse);
      NotBeforeItself(t[n], reverse);
      assert false;
    }
  }

  lemma NotBeforeItself(e: Entry, reverse: bool)
    ensures !Before(e, e, reverse)
  {
  }

  lemma WalkMembers(z: seq<Entry>, reverse: bool)
    ensures |Walk(z, reverse)| == |z| && forall e :: e in Walk(z, reverse) <==> e in z
  {
    var t := Walk(z, reverse);
    forall e | e in z
      ensures e in t
    {
      var i :| 0 <= i < |z| && z[i] == e;
      assert t[if reverse then |z| - 1 - i else i] == e;
    }
  }

  lemma SameMembersSamePage(t: seq<Entry>, z: seq<Entry>, after: Option<Position>, limit: nat, reverse: bool, page: Page, shown: seq<Entry>)
    requires |t| == |z| && (forall e :: e in t <==> e in z) && IsPage(t, after, limit, reverse, page, shown)
    ensures IsPage(z, after, limit, reverse, page, shown)
  {
    hide Ordered, LiesBeyond, Before;
  }

  /** One page of a sorted set: one entry more than asked for tells whether a cursor follows. */
  method SourcePage(z: seq<Entry>, after: Option<Position>, limit: nat, reverse: bool) returns (page: Page)
    requires Ordered(z, false)
    ensures page == PageOf(Walk(z, reverse), after, limit, reverse)
    ensures exists shown :: IsPage(z, after, limit, reverse, page, shown)
  {
    hide IsPage;
    ghost var t := Walk(z, reverse);
    WalkIsOrdered(z, reverse);
    WalkMembers(z, reverse);
    PageOfIsPage(t, after, limit, reverse);
    SameMembersSamePage(t, z, after, limit, reverse, PageOf(t, after, limit, reverse), Take(Beyond(t, after, reverse), limit));
    var entries := PageEntries(z, after, limit + 1, reverse);
    page := ScoredPageResult(entries, |z|, after, limit);
    ResultIsPage(Walk(z, reverse), entries, after, limit, reverse);
  }

  /** Cuts the extra entry off and turns the last entry shown into the cursor. */
  function ScoredPageResult(entries: seq<Entry>, total: nat, after: Option<Position>, limit: nat): Page {
    var shown := Take(entries, limit);
    var offset := OffsetOf(after);
    Page(Ids(shown), total, offset,
         if |entries| > limit && shown != []
         then Some(Position(shown[|shown| - 1].score, shown[|shown| - 1].id, offset + |shown|))
         else None)
  }

  /** Any part of the rest that reaches past the page, or all of it, gives the page. */
  lemma ResultIsPage(t: seq<Entry>, entries: seq<Entry>, after: Option<Position>, limit: nat, reverse: bool)
    requires exists n: nat :: n > limit && entries == Take(Beyond(t, after, reverse), n)
    ensures ScoredPageResult(entries, |t|, after, limit) == PageOf(t, after, limit, reverse)
  {
    hide Beyond;
    var rest := Beyond(t, after, reverse);
    assert Take(entries, limit) == Take(rest, limit);
  }

  // ----- Paging with an exclusion set -----

  function Kept(t: seq<Entry>, exclude: set<Id>): (r: seq<Entry>)
    ensures |r| <= |t|
  {
    if t == [] then []
    else if t[0].id in exclude then Kept(t[1..], exclude)
    else [t[0]] + Kept(t[1..], exclude)
  }

  lemma {:induction false} KeptConcat(t: seq<Entry>, u: seq<Entry>, exclude: set<Id>)
    ensures Kept(t + u, exclude) == Kept(t, exclude) + Kept(u, exclude)
    decreases |t|
  {
    if t == [] {
      assert t + u == u;
    } else {
      assert (t + u)[1..] == t[1..] + u;
      KeptConcat(t[1..], u, exclude);
    }
  }

  /** Distinct ids: no more entries are dropped than there are excluded ids. */
  lemma {:induction false} DroppedAtMostExcluded(t: seq<Entry>, exclude: set<Id>)
    requires DistinctIds(t)
    ensures |t| - |Kept(t, exclude)| <= |exclude|
    decreases |t|
  {
    if t != [] {
      assert DistinctIds(t[1..]) by {
        assert forall i :: 0 <= i < |t| - 1 ==> t[1..][i] == t[i + 1];
      }
      if t[0].id in exclude {
        DroppedAtMostExcluded(t[1..], exclude - {t[0].id});
        KeptIgnoresAbsent(t[1..], exclude, t[0].id);
      } else {
        DroppedAtMostExcluded(t[1..], exclude);
      }
    }
  }

  lemma {:induction false} KeptIgnoresAbsent(t: seq<Entry>, exclude: set<Id>, id: Id)
    requires forall i :: 0 <= i < |t| ==> t[i].id != id
    ensures Kept(t, exclude - {id}) == Kept(t, exclude)
    decreases |t|
  {
    if t != [] {
      KeptIgnoresAbsent(t[1..], exclude, id);
    }
  }

  /** A cursor at the k-th entry of an ordered walk resumes right behind it. */
  lemma CursorAt(t: seq<Entry>, k: nat, c: Position, reverse: bool)
    requires Ordered(t, reverse) && 0 < k <= |t| && t[k - 1] == EntryOf(c)
    ensures Cut(t, EntryOf(c), reverse) == k && Beyond(t, Some(c), reverse) == t[k..]
  {
    assert forall i :: 0 <= i < k - 1 ==> Before(t[i], t[k - 1], reverse);
    assert k < |t| ==> Before(t[k - 1], t[k], reverse);
    BeyondFrom(t, c, k, reverse);
  }

  /** The same inside what a former cursor left. */
  lemma CursorWithin(t: seq<Entry>, after: Option<Position>, n: nat, c: Position, reverse: bool)
    requires Ordered(t, reverse)
    requires var rest := Beyond(t, after, reverse); 0 < n <= |rest| && rest[n - 1] == EntryOf(c)
    ensures Beyond(t, Some(c), reverse) == Beyond(t, after, reverse)[n..]
  {
    var m := |t| - |Beyond(t, after, reverse)|;
    SuffixOfSuffix(t, m, n);
    CursorAt(t, m + n, c, reverse);
  }

  lemma SuffixOfSuffix(t: seq<Entry>, m: nat, n: nat)
    requires m + n <= |t|
    ensures t[m..][n..] == t[m + n..]
    ensures n > 0 ==> t[m..][n - 1] == t[m + n - 1]
  {
  }

  /** The cursor of a page resumes exactly behind the entries the page has used. */
  lemma CursorResumes(t: seq<Entry>, after: Option<Position>, limit: nat, reverse: bool)
    requires Ordered(t, reverse) && PageOf(t, after, limit, reverse).next.Some?
    ensures Beyond(t, PageOf(t, after, limit, reverse).next, reverse) == Beyond(t, after, reverse)[limit..]
  {
    CursorWithin(t, after, limit, PageOf(t, after, limit, reverse).next.value, reverse);
  }

  /** The page that skips the excluded ids: its cursor stands at the last entry shown, while any raw entry follows. */
  function ExcludingPageOf(t: seq<Entry>, exclude: set<Id>, after: Option<Position>, limit: nat, reverse: bool): Page {
    var rest := Beyond(t, after, reverse);
    var kept := Kept(rest, exclude);
    Page(Ids(Take(kept, limit)), |t|, OffsetOf(after),
         if 0 < limit <= |kept| && rest != [] && kept[limit - 1] != rest[|rest| - 1]
         then Some(Position(kept[limit - 1].score, kept[limit - 1].id, OffsetOf(after) + Cut(rest, kept[limit - 1], reverse)))
         else None)
  }

  /** What such a page and its cursor mean. */
  ghost predicate IsExcludingPage(t: seq<Entry>, exclude: set<Id>, after: Option<Position>, limit: nat, reverse: bool, page: Page) {
    var rest := Beyond(t, after, reverse);
    var kept := Kept(rest, exclude);
    && page.ids == Ids(Take(kept, limit))
    && page.total == |t|
    && page.currentOffset == OffsetOf(after)
    && (page.next.Some? <==> 0 < limit <= |kept| && kept[limit - 1] != rest[|rest| - 1])
    && (page.next.Some? ==>
          && EntryOf(page.next.value) == kept[limit - 1]
          && page.next.value.offset == OffsetOf(after) + |rest| - |Beyond(t, page.next, reverse)|
          && Kept(Beyond(t, page.next, reverse), exclude) == kept[limit..])
    && (page.next.None? && limit > 0 ==> |kept| <= limit)
  }

  lemma KeptSnoc(t: seq<Entry>, n: nat, exclude: set<Id>)
    requires n < |t|
    ensures Kept(t[..n + 1], exclude) == Kept(t[..n], exclude) + if t[n].id in exclude then [] else [t[n]]
  {
    assert t[..n + 1] == t[..n] + [t[n]];
    KeptConcat(t[..n], [t[n]], exclude);
  }

  /** The ids kept among the first `n` raw entries. */
  ghost function KeptIds(t: seq<Entry>, n: nat, exclude: set<Id>): seq<Id>
    requires n <= |t|
  {
    if n == 0 then []
    else if t[n - 1].id in exclude then KeptIds(t, n - 1, exclude)
    else KeptIds(t, n - 1, exclude) + [t[n - 1].id]
  }

  lemma {:induction false} KeptIdsAreKept(t: seq<Entry>, n: nat, exclude: set<Id>)
    requires n <= |t|
    ensures KeptIds(t, n, exclude) == Ids(Kept(t[..n], exclude))
    decreases n
  {
    if n > 0 {
      KeptIdsAreKept(t, n - 1, exclude);
      KeptSnoc(t, n - 1, exclude);
    }
  }

  function Included(ids: seq<Id>, exclude: set<Id>): (r: seq<Id>)
    ensures |r| <= |ids|
    ensures |r| == |ids| > 0 ==> ids[|ids| - 1] !in exclude
  {
    if ids == [] then []
    else if ids[|ids| - 1] in exclude then Included(ids[..|ids| - 1], exclude)
    else Included(ids[..|ids| - 1], exclude) + [ids[|ids| - 1]]
  }

  /** One raw page further: its ids without the excluded ones join the kept ids. */
  lemma {:induction false} KeptIdsExtend(t: seq<Entry>, n: nat, ids: seq<Id>, exclude: set<Id>)
    requires n + |ids| <= |t| && forall i :: 0 <= i < |ids| ==> ids[i] == t[n + i].id
    ensures KeptIds(t, n + |ids|, exclude) == KeptIds(t, n, exclude) + Included(ids, exclude)
    decreases |ids|
  {
    if ids != [] {
      KeptIdsExtend(t, n, ids[..|ids| - 1], exclude);
    }
  }

  /** Collects the ids of a raw page that are not excluded; only the last one can complete the page. */
  method CollectIncluded(ids: seq<Id>, exclude: set<Id>, collected: seq<Id>, limit: nat) returns (r: seq<Id>)
    requires |collected| < limit && |collected| + |ids| <= limit
    ensures r == collected + Included(ids, exclude)
  {
    r := collected;
    for i := 0 to |ids|
      invariant r == collected + Included(ids[..i], exclude) && |r| < limit
    {
      assert ids[..i + 1][..i] == ids[..i];
      if ids[i] !in exclude {
        r := r + [ids[i]];
        if |r| == limit {
          assert ids[..i + 1] == ids;
          return;
        }
      }
    }
    assert ids[..|ids|] == ids;
  }

  /** The raw entries up to `n` fill the page, and its last raw entry is the last one shown. */
  lemma FilledPage(t: seq<Entry>, exclude: set<Id>, after: Option<Position>, limit: nat, reverse: bool,
                   n: nat, page: Page)
    requires Ordered(t, reverse)
    requires var rest := Beyond(t, after, reverse);
             && 0 < n <= |rest| && limit > 0 && rest[n - 1].id !in exclude
             && |page.ids| == limit && page.ids == KeptIds(rest, n, exclude) && page.total == |t| && page.currentOffset == OffsetOf(after)
             && (page.next.Some? <==> n < |rest|)
             && (page.next.Some? ==> EntryOf(page.next.value) == rest[n - 1] && page.next.value.offset == OffsetOf(after) + n)
    ensures IsExcludingPage(t, exclude, after, limit, reverse, page)
  {
    hide Ordered, KeptIds, Beyond, Kept;
    var rest := Beyond(t, after, reverse);
    var kept := Kept(rest, exclude);
    KeptIdsAreKept(rest, n, exclude);
    KeptSplits(rest, n, exclude);
    assert Take(kept, limit) == Kept(rest[..n], exclude);
    assert kept[limit..] == Kept(rest[n..], exclude);
    if n < |rest| {
      CursorWithin(t, after, n, page.next.value, reverse);
      LastIsLater(t, after, n, reverse);
    }
  }

  lemma KeptSplits(t: seq<Entry>, n: nat, exclude: set<Id>)
    requires 0 < n <= |t| && t[n - 1].id !in exclude
    ensures Kept(t, exclude) == Kept(t[..n], exclude) + Kept(t[n..], exclude)
    ensures var k := |Kept(t[..n], exclude)|; k > 0 && Kept(t, exclude)[k - 1] == t[n - 1]
  {
    assert t == t[..n] + t[n..];
    KeptConcat(t[..n], t[n..], exclude);
    KeptSnoc(t, n - 1, exclude);
  }

  lemma LastIsLater(t: seq<Entry>, after: Option<Position>, n: nat, reverse: bool)
    requires Ordered(t, reverse)
    requires var rest := Beyond(t, after, reverse); 0 < n < |rest|
    ensures var rest := Beyond(t, after, reverse); rest[n - 1] != rest[|rest| - 1]
  {
    var rest := Beyond(t, after, reverse);
    var m := |t| - |rest|;
    assert rest[n - 1] == t[m + n - 1] && rest[|rest| - 1] == t[|t| - 1];
    assert Before(t[m + n - 1], t[|t| - 1], reverse);
  }

  /** No raw entry is left, and the page is not full. */
  lemma ExhaustedPage(t: seq<Entry>, exclude: set<Id>, after: Option<Position>, limit: nat, reverse: bool, n: nat, page: Page)
    requires var rest := Beyond(t, after, reverse);
             && n == |rest| && |page.ids| < limit && page.ids == KeptIds(rest, n, exclude)
             && page.total == |t| && page.currentOffset == OffsetOf(after) && page.next.None?
    ensures IsExcludingPage(t, exclude, after, limit, reverse, page)
  {
    var rest := Beyond(t, after, reverse);
    KeptIdsAreKept(rest, n, exclude);
    assert rest[..n] == rest;
  }

  lemma {:induction false} KeptAreMembers(t: seq<Entry>, exclude: set<Id>)
    ensures forall e :: e in Kept(t, exclude) <==> e in t && e.id !in exclude
    decreases |t|
  {
    if t != [] {
      KeptAreMembers(t[1..], exclude);
    }
  }

  /** What the page means fixes the page. */
  lemma ExcludingPageIsDetermined(t: seq<Entry>, exclude: set<Id>, after: Option<Position>, limit: nat, reverse: bool)
    requires Ordered(t, reverse)
    ensures forall page :: IsExcludingPage(t, exclude, after, limit, reverse, page) ==>
              page == ExcludingPageOf(t, exclude, after, limit, reverse)
  {
    hide Ordered, Kept, Beyond, Cut;
    forall page | IsExcludingPage(t, exclude, after, limit, reverse, page)
      ensures page == ExcludingPageOf(t, exclude, after, limit, reverse)
    {
      if page.next.Some? {
        ExcludingOffset(t, exclude, after, limit, reverse, page);
      }
    }
  }

  lemma ExcludingOffset(t: seq<Entry>, exclude: set<Id>, after: Option<Position>, limit: nat, reverse: bool, page: Page)
    requires Ordered(t, reverse) && IsExcludingPage(t, exclude, after, limit, reverse, page) && page.next.Some?
    ensures page.next.value.offset == OffsetOf(after) + Cut(Beyond(t, after, reverse), EntryOf(page.next.value), reverse)
    ensures Beyond(t, after, reverse) != []
  {
    var rest := Beyond(t, after, reverse);
    var last := EntryOf(page.next.value);
    KeptAreMembers(rest, exclude);
    assert last in Kept(rest, exclude);
    BeyondIsOrdered(t, after, reverse);
    hide Beyond, Ordered, Kept;
    var n :| 0 <= n < |rest| && rest[n] == last;
    CursorWithin(t, after, n + 1, page.next.value, reverse);
    CursorAt(rest, n + 1, page.next.value, reverse);
  }

  lemma EmptyPage(t: seq<Entry>, exclude: set<Id>, after: Option<Position>, reverse: bool, page: Page)
    requires page == Page([], |t|, OffsetOf(after), None)
    ensures IsExcludingPage(t, exclude, after, 0, reverse, page)
  {
  }

  /** `used` raw entries behind the first cursor have been read, and `ids` are those kept. */
  ghost predicate Collecting(t: seq<Entry>, exclude: set<Id>, after: Option<Position>, reverse: bool,
                             used: nat, cursor: Option<Position>, ids: seq<Id>) {
    var rest := Beyond(t, after, reverse);
    && used <= |rest|
    && Beyond(t, cursor, reverse) == rest[used..]
    && OffsetOf(cursor) == OffsetOf(after) + used
    && ids == KeptIds(rest, used, exclude)
  }

  lemma CollectingStarts(t: seq<Entry>, exclude: set<Id>, after: Option<Position>, reverse: bool)
    ensures Collecting(t, exclude, after, reverse, 0, after, [])
  {
    var rest := Beyond(t, after, reverse);
    assert rest[0..] == rest;
  }

  /** No more entries are dropped than there are excluded ids. */
  lemma CollectingDrops(z: seq<Entry>, exclude: set<Id>, after: Option<Position>, reverse: bool,
                        used: nat, cursor: Option<Position>, ids: seq<Id>)
    requires DistinctIds(z) && Collecting(Walk(z, reverse), exclude, after, reverse, used, cursor, ids)
    ensures used - |ids| <= |exclude|
  {
    var rest := Beyond(Walk(z, reverse), after, reverse);
    assert DistinctIds(Walk(z, reverse));
    assert DistinctIds(rest);
    assert DistinctIds(rest[..used]);
    KeptIdsAreKept(rest, used, exclude);
    DroppedAtMostExcluded(rest[..used], exclude);
  }

  /** A raw page, in terms of what the first cursor left. */
  lemma RawPageShape(t: seq<Entry>, rest: seq<Entry>, reverse: bool, used: nat, cursor: Option<Position>, limit: nat)
    requires limit > 0 && used <= |rest| && Beyond(t, cursor, reverse) == rest[used..]
    ensures var raw := PageOf(t, cursor, limit, reverse);
            && |raw.ids| <= limit && used + |raw.ids| <= |rest|
            && (raw.ids == [] ==> raw.next.None?)
            && (raw.next.None? <==> used + |raw.ids| == |rest|)
            && forall i :: 0 <= i < |raw.ids| ==> raw.ids[i] == rest[used + i].id
  {
    hide Beyond;
  }

  /** The ids of a raw page that are not excluded are the next ones kept. */
  lemma RawPageCollects(t: seq<Entry>, exclude: set<Id>, after: Option<Position>, limit: nat, reverse: bool,
                        used: nat, cursor: Option<Position>, ids: seq<Id>)
    requires |ids| < limit && Collecting(t, exclude, after, reverse, used, cursor, ids)
    ensures var rest, raw := Beyond(t, after, reverse), PageOf(t, cursor, limit - |ids|, reverse);
            && |raw.ids| <= limit - |ids| && used + |raw.ids| <= |rest|
            && (raw.ids == [] ==> raw.next.None?)
            && (raw.next.None? <==> used + |raw.ids| == |rest|)
            && ids + Included(raw.ids, exclude) == KeptIds(rest, used + |raw.ids|, exclude)
            && (|ids + Included(raw.ids, exclude)| == limit ==> raw.ids != [] && rest[used + |raw.ids| - 1].id !in exclude)
  {
    hide KeptIds, PageOf, Beyond;
    var rest := Beyond(t, after, reverse);
    var raw := PageOf(t, cursor, limit - |ids|, reverse);
    RawPageShape(t, rest, reverse, used, cursor, limit - |ids|);
    KeptIdsExtend(rest, used, raw.ids, exclude);
    assert raw.ids != [] ==> raw.ids[|raw.ids| - 1] == rest[used + (|raw.ids| - 1)].id;
  }

  /** The cursor of a raw page stands at the last raw entry read. */
  lemma RawPageResumes(t: seq<Entry>, exclude: set<Id>, after: Option<Position>, limit: nat, reverse: bool,
                       used: nat, cursor: Option<Position>, ids: seq<Id>)
    requires Ordered(t, reverse)
    requires |ids| < limit && Collecting(t, exclude, after, reverse, used, cursor, ids)
    requires PageOf(t, cursor, limit - |ids|, reverse).next.Some?
    ensures var rest, raw := Beyond(t, after, reverse), PageOf(t, cursor, limit - |ids|, reverse);
            && |raw.ids| == limit - |ids| && used + |raw.ids| < |rest|
            && EntryOf(raw.next.value) == rest[used + |raw.ids| - 1]
            && raw.next.value.offset == OffsetOf(after) + used + |raw.ids|
            && Beyond(t, raw.next, reverse) == rest[used + |raw.ids|..]
  {
    hide Ordered, KeptIds, Beyond;
    var rest := Beyond(t, after, reverse);
    SuffixOfSuffix(rest, used, limit - |ids|);
    CursorResumes(t, cursor, limit - |ids|, reverse);
  }

  /** A raw page that completes the page. */
  lemma RawPageFills(t: seq<Entry>, exclude: set<Id>, after: Option<Position>, limit: nat, reverse: bool,
                     used: nat, cursor: Option<Position>, ids: seq<Id>)
    requires Ordered(t, reverse)
    requires |ids| < limit && Collecting(t, exclude, after, reverse, used, cursor, ids)
    requires |ids + Included(PageOf(t, cursor, limit - |ids|, reverse).ids, exclude)| == limit
    ensures var raw := PageOf(t, cursor, limit - |ids|, reverse);
            IsExcludingPage(t, exclude, after, limit, reverse,
                            Page(ids + Included(raw.ids, exclude), |t|, OffsetOf(after), raw.next))
  {
    hide Ordered, KeptIds, IsExcludingPage, Beyond, PageOf, Included, Collecting;
    var rest, raw := Beyond(t, after, reverse), PageOf(t, cursor, limit - |ids|, reverse);
    RawPageCollects(t, exclude, after, limit, reverse, used, cursor, ids);
    var n := used + |raw.ids|;
    var page := Page(ids + Included(raw.ids, exclude), |t|, OffsetOf(after), raw.next);
    if raw.next.Some? {
      RawPageResumes(t, exclude, after, limit, reverse, used, cursor, ids);
    }
    FilledPage(t, exclude, after, limit, reverse, n, page);
  }

  /** A raw page that leaves the page short and has a successor. */
  lemma RawPageGoesOn(t: seq<Entry>, exclude: set<Id>, after: Option<Position>, limit: nat, reverse: bool,
                      used: nat, cursor: Option<Position>, ids: seq<Id>)
    requires Ordered(t, reverse)
    requires |ids| < limit && Collecting(t, exclude, after, reverse, used, cursor, ids)
    requires PageOf(t, cursor, limit - |ids|, reverse).next.Some?
    ensures var raw := PageOf(t, cursor, limit - |ids|, reverse);
            && |raw.ids| == limit - |ids|
            && Collecting(t, exclude, after, reverse, used + |raw.ids|, raw.next, ids + Included(raw.ids, exclude))
  {
    hide Ordered, KeptIds;
    RawPageCollects(t, exclude, after, limit, reverse, used, cursor, ids);
    RawPageResumes(t, exclude, after, limit, reverse, used, cursor, ids);
  }

  /** A raw page of the entries still needed either completes the page, ends it, or uses up an excluded id. */
  lemma RawPageStep(t: seq<Entry>, exclude: set<Id>, after: Option<Position>, limit: nat, reverse: bool,
                    used: nat, cursor: Option<Position>, ids: seq<Id>)
    requires Ordered(t, reverse) && |ids| < limit
    requires Collecting(t, exclude, after, reverse, used, cursor, ids)
    ensures var raw := PageOf(t, cursor, limit - |ids|, reverse);
            var more := ids + Included(raw.ids, exclude);
            && |raw.ids| <= limit - |ids| && (raw.ids == [] ==> raw.next.None? && more == ids)
            && (|more| == limit ==>
                  IsExcludingPage(t, exclude, after, limit, reverse, Page(more, |t|, OffsetOf(after), raw.next)))
            && (|more| < limit && raw.next.None? ==>
                  IsExcludingPage(t, exclude, after, limit, reverse, Page(more, |t|, OffsetOf(after), None)))
            && (|more| < limit && raw.next.Some? ==>
                  && Collecting(t, exclude, after, reverse, used + |raw.ids|, raw.next, more)
                  && used - |ids| < used + |raw.ids| - |more|)
  {
    hide Ordered, KeptIds, IsExcludingPage, Collecting, PageOf, Beyond;
    var rest, raw := Beyond(t, after, reverse), PageOf(t, cursor, limit - |ids|, reverse);
    RawPageCollects(t, exclude, after, limit, reverse, used, cursor, ids);
    var more := ids + Included(raw.ids, exclude);
    if |more| == limit {
      RawPageFills(t, exclude, after, limit, reverse, used, cursor, ids);
    } else if raw.next.None? {
      ExhaustedPage(t, exclude, after, limit, reverse, used + |raw.ids|, Page(more, |t|, OffsetOf(after), None));
    } else {
      RawPageGoesOn(t, exclude, after, limit, reverse, used, cursor, ids);
    }
  }

  /**
    Collects `limit` entries that are not excluded. Each raw page that does not finish the
    job uses up an excluded id, so the bound on raw pages is never reached.
  */
  method SourcePageExcluding(z: seq<Entry>, exclude: set<Id>, after: Option<Position>, limit: nat, reverse: bool)
    returns (page: Page, ghost rawPages: nat)
    requires Ordered(z, false) && DistinctIds(z)
    ensures IsExcludingPage(Walk(z, reverse), exclude, after, limit, reverse, page)
    ensures page == ExcludingPageOf(Walk(z, reverse), exclude, after, limit, reverse)
    ensures rawPages <= |exclude| + 1
  {
    hide Ordered, DistinctIds, Collecting, IsExcludingPage, ExcludingPageOf, PageOf, Walk, IsPage;
    WalkIsOrdered(z, reverse);
    ExcludingPageIsDetermined(Walk(z, reverse), exclude, after, limit, reverse);
    rawPages := 0;
    page := Page([], |z|, OffsetOf(after), None);
    if limit == 0 {
      EmptyPage(Walk(z, reverse), exclude, after, reverse, page);
      return;
    }
    ghost var t := Walk(z, reverse);
    CollectingStarts(t, exclude, after, reverse);
    ghost var used: nat := 0;
    var collected: seq<Id> := [];
    var cursor := after;
    var maxRawPages := limit + |exclude| + 1;
    for rawPage := 0 to maxRawPages
      invariant |collected| < limit
      invariant Collecting(t, exclude, after, reverse, used, cursor, collected)
      invariant rawPage == rawPages <= used - |collected| <= |exclude|
    {
      var raw := SourcePage(z, cursor, limit - |collected|, reverse);
      RawPageStep(t, exclude, after, limit, reverse, used, cursor, collected);
      rawPages := rawPages + 1;
      if raw.ids == [] {
        return Page(collected, |z|, OffsetOf(after), None), rawPages;
      }
      collected := CollectIncluded(raw.ids, exclude, collected, limit);
      if |collected| == limit {
        return Page(collected, |z|, OffsetOf(after), raw.next), rawPages;
      }
      if raw.next.None? {
        return Page(collected, |z|, OffsetOf(after), None), rawPages;
      }
      cursor, used := raw.next, used + |raw.ids|;
      CollectingDrops(z, exclude, after, reverse, used, cursor, collected);
    }
    assert false;
  }

  // ----- Paging an id list held in memory -----

  function Inserted(t: seq<Entry>, e: Entry, reverse: bool): seq<Entry> {
    if t == [] || Before(e, t[0], reverse) then [e] + t else [t[0]] + Inserted(t[1..], e, reverse)
  }

  function Sorted(t: seq<Entry>, reverse: bool): seq<Entry> {
    if t == [] then [] else Inserted(Sorted(t[1..], reverse), t[0], reverse)
  }

  lemma {:induction false} InsertedIsOrdered(t: seq<Entry>, e: Entry, reverse: bool)
    requires Ordered(t, reverse) && e !in t
    ensures Ordered(Inserted(t, e, reverse), reverse)
    ensures forall f :: f in Inserted(t, e, reverse) <==> f == e || f in t
    ensures |Inserted(t, e, reverse)| == |t| + 1
    decreases |t|
  {
    if t != [] && !Before(e, t[0], reverse) {
      var rest := t[1..];
      InsertedIsOrdered(rest, e, reverse);
      var r := Inserted(rest, e, reverse);
      assert e != t[0] && Before(t[0], e, reverse);
      forall i | 0 <= i < |r|
        ensures Before(t[0], r[i], reverse)
      {
        assert r[i] in r;
        if r[i] != e {
          var j :| 0 <= j < |rest| && rest[j] == r[i];
          assert Before(t[0], t[j + 1], reverse);
        }
      }
      assert Inserted(t, e, reverse) == [t[0]] + r;
    } else if t != [] {
      forall i | 0 <= i < |t|
        ensures Before(e, t[i], reverse)
      {
        assert i > 0 ==> Before(t[0], t[i], reverse);
      }
    }
  }

  lemma {:induction false} SortedIsOrdered(t: seq<Entry>, reverse: bool)
    requires DistinctIds(t)
    ensures Ordered(Sorted(t, reverse), reverse) && |Sorted(t, reverse)| == |t|
    ensures forall f :: f in Sorted(t, reverse) <==> f in t
    decreases |t|
  {
    if t != [] {
      var rest := t[1..];
      assert forall i :: 0 <= i < |rest| ==> rest[i] == t[i + 1];
      SortedIsOrdered(rest, reverse);
      assert t[0] !in rest;
      InsertedIsOrdered(Sorted(rest, reverse), t[0], reverse);
    }
  }

  /** The entries that lie beyond the cursor, in the order given. */
  function Filtered(t: seq<Entry>, after: Option<Position>, reverse: bool): seq<Entry> {
    if t == [] then []
    else (if after.None? || Before(EntryOf(after.value), t[0], reverse) then [t[0]] else [])
         + Filtered(t[1..], after, reverse)
  }

  lemma {:induction false} FilteredIsBeyond(t: seq<Entry>, after: Option<Position>, reverse: bool)
    requires Ordered(t, reverse)
    ensures Filtered(t, after, reverse) == Beyond(t, after, reverse)
    decreases |t|
  {
    hide Beyond, Before, Ordered;
    if t == [] {
      BeyondNone(after, reverse);
    } else {
      OrderedTail(t, reverse);
      FilteredIsBeyond(t[1..], after, reverse);
      BeyondFirst(t, after, reverse);
    }
  }

  lemma BeyondNone(after: Option<Position>, reverse: bool)
    ensures Beyond([], after, reverse) == []
  {
  }

  lemma BeyondFirst(t: seq<Entry>, after: Option<Position>, reverse: bool)
    requires Ordered(t, reverse) && t != []
    ensures Beyond(t, after, reverse)
         == if after.None? || Before(EntryOf(after.value), t[0], reverse) then [t[0]] + Beyond(t[1..], after, reverse)
            else Beyond(t[1..], after, reverse)
  {
    OrderedTail(t, reverse);
    hide Ordered;
    if after.Some? {
      var c, rest := EntryOf(after.value), t[1..];
      if Before(c, t[0], reverse) {
        assert Cut(rest, c, reverse) == 0;
        assert rest[0..] == rest;
      } else {
        assert Cut(t, c, reverse) == 1 + Cut(rest, c, reverse);
      }
    }
  }

  function Restricted(z: map<Id, Score>, ids: set<Id>): map<Id, Score> {
    map id | id in z && id in ids :: z[id]
  }

  lemma NothingToPage(after: Option<Position>, limit: nat, reverse: bool)
    ensures PageOf([], after, limit, reverse) == Page([], 0, OffsetOf(after), None)
  {
  }

  /** The source scores of the listed ids that it retains. */
  method ScoresForIds(source: map<Id, Score>, ids: seq<Id>) returns (scores: seq<Entry>)
    requires forall i, j :: 0 <= i < j < |ids| ==> ids[i] != ids[j]
    ensures DistinctIds(scores)
    ensures forall e :: e in scores <==> e.id in source && source[e.id] == e.score && e.id in ids
  {
    scores := [];
    for i := 0 to |ids|
      invariant DistinctIds(scores)
      invariant forall k :: 0 <= k < |scores| ==> scores[k].id in ids[..i]
      invariant forall e :: e in scores <==> e.id in source && source[e.id] == e.score && e.id in ids[..i]
    {
      assert ids[..i + 1] == ids[..i] + [ids[i]];
      if ids[i] in source {
        scores := scores + [Entry(source[ids[i]], ids[i])];
      }
    }
    assert ids[..|ids|] == ids;
  }

  /**
    Pages the listed ids that the source retains, by sorting their source scores in memory.
    It shows what paging a sorted set of exactly these members would show.
  */
  method PageAdditionalIds(source: map<Id, Score>, ids: seq<Id>, after: Option<Position>, limit: nat, reverse: bool)
    returns (page: Page, ghost t: seq<Entry>)
    requires forall i, j :: 0 <= i < j < |ids| ==> ids[i] != ids[j]
    ensures Walks(t, Restricted(source, set id | id in ids), reverse)
    ensures limit > 0 ==> page == PageOf(t, after, limit, reverse)
    ensures limit == 0 ==> page == Page([], 0, OffsetOf(after), None)
  {
    hide DistinctIds, Ordered, Filtered, Beyond, Sorted;
    var scores := ScoresForIds(source, ids);
    SortedIsOrdered(scores, reverse);
    var pairs := Sorted(scores, reverse);
    t := pairs;
    if limit == 0 || ids == [] {
      assert t != [] ==> t[0] in t;
      NothingToPage(after, limit, reverse);
      return Page([], 0, OffsetOf(after), None), t;
    }
    FilteredIsBeyond(pairs, after, reverse);
    var entries := Filtered(pairs, after, reverse);
    page := ScoredPageResult(entries, |scores|, after, limit);
    assert entries == Take(entries, |entries| + limit + 1);
    ResultIsPage(t, entries, after, limit, reverse);
  }

  // ----- Paging while members come and go -----

  /** The entries page `k` shows when it reads the walk `ts[k]` from the cursor `cursors[k]`. */
  function Shown(ts: seq<seq<Entry>>, cursors: seq<Option<Position>>, k: nat, limit: nat, reverse: bool): seq<Entry>
    requires k < |ts| && k < |cursors|
  {
    Take(Beyond(ts[k], cursors[k], reverse), limit)
  }

  /** A reader follows `next` from the first page; between pages the sorted set may change at will. */
  ghost predicate Session(ts: seq<seq<Entry>>, cursors: seq<Option<Position>>, limit: nat, reverse: bool) {
    && limit > 0
    && |cursors| == |ts| + 1 && cursors[0].None?
    && (forall k :: 0 <= k < |ts| ==>
          Ordered(ts[k], reverse) && cursors[k + 1] == PageOf(ts[k], cursors[k], limit, reverse).next)
    && (forall k :: 0 < k < |ts| ==> cursors[k].Some?)
  }

  ghost predicate Passed(c: Option<Position>, e: Entry, reverse: bool) {
    c.Some? && !Before(EntryOf(c.value), e, reverse)
  }

  /** A page shows entries beyond its cursor and not beyond the next one. */
  lemma PageBounds(t: seq<Entry>, after: Option<Position>, limit: nat, reverse: bool, e: Entry)
    requires Ordered(t, reverse) && e in Take(Beyond(t, after, reverse), limit)
    ensures after.Some? ==> Before(EntryOf(after.value), e, reverse)
    ensures var next := PageOf(t, after, limit, reverse).next; next.Some? ==> Passed(next, e, reverse)
  {
    var rest := Beyond(t, after, reverse);
    var shown := Take(rest, limit);
    var i :| 0 <= i < |shown| && shown[i] == e;
    assert rest[i] == e;
    BeyondCovers(t, after, e, reverse);
    BeyondIsOrdered(t, after, reverse);
    hide Beyond;
    assert i < limit - 1 && limit <= |rest| ==> Before(rest[i], rest[limit - 1], reverse);
  }

  /** An entry that a page passes, or that its end passes, is on the page. */
  lemma PageShows(t: seq<Entry>, after: Option<Position>, limit: nat, reverse: bool, e: Entry)
    requires Ordered(t, reverse) && limit > 0 && e in t && !Passed(after, e, reverse)
    requires var next := PageOf(t, after, limit, reverse).next; next.None? || Passed(next, e, reverse)
    ensures e in Take(Beyond(t, after, reverse), limit)
  {
    var rest := Beyond(t, after, reverse);
    BeyondCovers(t, after, e, reverse);
    BeyondIsOrdered(t, after, reverse);
    hide Beyond;
    var i :| 0 <= i < |rest| && rest[i] == e;
    assert forall j :: limit <= j < |rest| ==> Before(rest[limit - 1], rest[j], reverse);
    assert Take(rest, limit)[i] == e;
  }

  /** Cursors only advance. */
  lemma {:induction false} CursorsAdvance(ts: seq<seq<Entry>>, cursors: seq<Option<Position>>, j: nat, k: nat, limit: nat, reverse: bool)
    requires Session(ts, cursors, limit, reverse) && 0 < j < k <= |ts| && cursors[k].Some?
    ensures cursors[j].Some? && Before(EntryOf(cursors[j].value), EntryOf(cursors[k].value), reverse)
    decreases k
  {
    hide Ordered, Beyond;
    var rest := Beyond(ts[k - 1], cursors[k - 1], reverse);
    var last := EntryOf(cursors[k].value);
    assert rest[limit - 1] == last && Take(rest, limit)[limit - 1] == last;
    PageBounds(ts[k - 1], cursors[k - 1], limit, reverse, last);
    if j < k - 1 {
      CursorsAdvance(ts, cursors, j, k - 1, limit, reverse);
    }
  }

  /**
    Whatever happens between pages, a later page shows only entries beyond those of an earlier
    one; so an id comes back only after its score has changed.
  */
  lemma NothingIsRepeated(ts: seq<seq<Entry>>, cursors: seq<Option<Position>>, j: nat, k: nat, limit: nat, reverse: bool,
                          e: Entry, f: Entry)
    requires Session(ts, cursors, limit, reverse) && j < k < |ts|
    requires e in Shown(ts, cursors, j, limit, reverse) && f in Shown(ts, cursors, k, limit, reverse)
    ensures Before(e, f, reverse)
    ensures e.id == f.id ==> e.score != f.score
  {
    hide Ordered, Beyond;
    PageBounds(ts[j], cursors[j], limit, reverse, e);
    PageBounds(ts[k], cursors[k], limit, reverse, f);
    assert cursors[j + 1].Some?;
    if j + 1 < k {
      CursorsAdvance(ts, cursors, j + 1, k, limit, reverse);
    }
  }

  /** An entry present during the first `n` reads and passed by the cursor, or by the end, has been shown. */
  lemma {:induction false} StayersAreShown(ts: seq<seq<Entry>>, cursors: seq<Option<Position>>, n: nat, limit: nat, reverse: bool, e: Entry)
    returns (k: nat)
    requires Session(ts, cursors, limit, reverse) && 0 < n <= |ts|
    requires forall i :: 0 <= i < n ==> e in ts[i]
    requires cursors[n].None? || Passed(cursors[n], e, reverse)
    ensures k < n && e in Shown(ts, cursors, k, limit, reverse)
    decreases n
  {
    hide Ordered, Beyond, PageOf;
    if Passed(cursors[n - 1], e, reverse) {
      k := StayersAreShown(ts, cursors, n - 1, limit, reverse, e);
    } else {
      k := n - 1;
      PageShows(ts[k], cursors[k], limit, reverse, e);
    }
  }

  /** An entry that stays throughout a finished session is shown on exactly one page. */
  lemma StayersAreShownExactlyOnce(ts: seq<seq<Entry>>, cursors: seq<Option<Position>>, limit: nat, reverse: bool, e: Entry)
    requires Session(ts, cursors, limit, reverse) && ts != [] && cursors[|ts|].None?
    requires forall i :: 0 <= i < |ts| ==> e in ts[i]
    ensures exists k :: 0 <= k < |ts| && e in Shown(ts, cursors, k, limit, reverse)
    ensures forall j, k :: 0 <= j < k < |ts| ==>
              !(e in Shown(ts, cursors, j, limit, reverse) && e in Shown(ts, cursors, k, limit, reverse))
  {
    var k := StayersAreShown(ts, cursors, |ts|, limit, reverse, e);
    forall j, k | 0 <= j < k < |ts| && e in Shown(ts, cursors, j, limit, reverse)
      ensures e !in Shown(ts, cursors, k, limit, reverse)
    {
      if e in Shown(ts, cursors, k, limit, reverse) {
        NothingIsRepeated(ts, cursors, j, k, limit, reverse, e, e);
        assert false;
      }
    }
  }
}
