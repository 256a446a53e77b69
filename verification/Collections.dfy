/** Facts about finite collections that several parts of the model share. */
module Collections {
  predicate NoRepeats<T(==)>(s: seq<T>) {
    forall i, j :: 0 <= i < j < |s| ==> s[i] != s[j]
  }

  ghost predicate Ascending(ids: seq<nat>) {
    forall i, j :: 0 <= i < j < |ids| ==> ids[i] < ids[j]
  }

  function Elements<T(==,!new)>(s: seq<T>): (r: set<T>)
    ensures forall x :: x in r <==> x in s
  {
    set x | x in s
  }

  lemma SubsetSize<T>(a: set<T>, b: set<T>)
    requires a <= b
    ensures |a| <= |b| && (|a| == |b| ==> a == b)
  {
    assert b == a + (b - a);
    assert |b| == |a| + |b - a|;
  }

  lemma UnionSize<T>(a: set<T>, b: set<T>)
    requires a !! b
    ensures |a + b| == |a| + |b|
  {
  }

  lemma {:induction false} AscendingSize(ids: seq<nat>)
    requires Ascending(ids)
    ensures |Elements(ids)| == |ids|
    decreases |ids|
  {
    if ids == [] {
      assert Elements(ids) == {};
    } else {
      var rest := ids[..|ids| - 1];
      AscendingSize(rest);
      assert ids == rest + [ids[|ids| - 1]];
      assert Elements(ids) == Elements(rest) + {ids[|ids| - 1]};
    }
  }

  /** The members of a set in whatever order a scan returns them. */
  method Listing<T(==)>(s: set<T>) returns (r: seq<T>)
    ensures (forall x :: x in r <==> x in s) && NoRepeats(r)
  {
    r := [];
    var rest := s;
    while rest != {}
      invariant rest <= s && NoRepeats(r) && (forall x :: x in r ==> x !in rest) && forall x :: x in s <==> x in r || x in rest
      decreases rest
    {
      var x :| x in rest;
      r := r + [x];
      rest := rest - {x};
    }
  }

  /** The next members of a set that is read in chunks: at most `n`, and fewer only when they are the last. */
  method First<T(==)>(s: set<T>, n: nat) returns (chunk: set<T>)
    requires n > 0
    ensures chunk <= s && |chunk| <= n
    ensures (s != {} ==> chunk != {}) && (|chunk| < n ==> chunk == s)
  {
    chunk := {};
    var rest := s;
    while rest != {} && |chunk| < n
      invariant chunk <= s && rest == s - chunk && |chunk| <= n && |chunk| + |rest| == |s|
      decreases |rest|
    {
      var x :| x in rest;
      chunk := chunk + {x};
      rest := rest - {x};
    }
  }

  method Smallest(ids: set<nat>) returns (least: nat)
    requires ids != {}
    ensures least in ids && forall id :: id in ids ==> least <= id
  {
    least :| least in ids;
    var rest := ids - {least};
    while rest != {}
      invariant rest < ids && least in ids && least !in rest && forall id :: id in ids ==> least <= id || id in rest
      decreases rest
    {
      var id :| id in rest;
      rest := rest - {id};
      if id < least {
        least := id;
      }
    }
  }
}
