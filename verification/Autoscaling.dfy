/**
  The dashboard's forecast of a supervisor's next scaling step. Each queue's pool of worker
  processes moves towards the share of the maximum that its workload asks for, pool after
  pool, while a running total limits how far it may go. Shares are exact numbers here.
*/
module Autoscaling {
  datatype Options = Options(minProcesses: int, maxProcesses: int, balanceMaxShift: int)

  datatype Strategy = Size | Time

  datatype Pool = Pool(processes: nat, readyJobs: nat, timeToClear: real)

  /** A pool's current processes, and the ceiling of the number its workload asks for. */
  datatype Demand = Demand(current: int, desired: int)

  datatype Limits = Limits(minimum: nat, maximum: nat, shift: nat, poolMaximum: nat)

  function Larger(a: int, b: int): int {
    if a > b then a else b
  }

  function Smaller(a: int, b: int): int {
    if a < b then a else b
  }

  function Ceiling(x: real): (n: int)
    ensures n as real >= x > n as real - 1.0
  {
    if x.Floor as real == x then x.Floor else x.Floor + 1
  }

  function LimitsOf(o: Options, pools: nat): Limits {
    var minimum, maximum := Larger(0, o.minProcesses), Larger(0, o.maxProcesses);
    Limits(minimum, maximum, Larger(0, o.balanceMaxShift), Larger(minimum, maximum - (pools - 1) * minimum))
  }

  /** A pool may have whatever the minimum of the others leaves of the maximum, but never less than the minimum. */
  lemma LimitsLeaveRoom(o: Options, pools: nat)
    requires pools > 0
    ensures var l := LimitsOf(o, pools);
            if pools * l.minimum <= l.maximum then l.poolMaximum + (pools - 1) * l.minimum == l.maximum else l.poolMaximum == l.minimum
  {
    var l := LimitsOf(o, pools);
    assert pools * l.minimum == (pools - 1) * l.minimum + l.minimum;
  }

  // ----- One pool -----

  /** The pool's next size, given the total of all pools so far. */
  function NextPool(l: Limits, p: Demand, total: int): int {
    if p.desired > p.current then
      var upShift := Smaller(Larger(0, l.maximum - total), l.shift);
      Smaller(p.current + upShift, Smaller(l.poolMaximum, p.desired))
    else if p.desired < p.current then
      var downShift := Smaller(Larger(0, total - l.minimum), l.shift);
      Larger(p.current - downShift, Larger(l.minimum, p.desired))
    else p.current
  }

  /** From the current size towards the desired one, not past it. */
  predicate Towards(p: Demand, next: int) {
    if p.desired >= p.current then p.current <= next <= p.desired else p.desired <= next <= p.current
  }

  predicate InRange(l: Limits, processes: int) {
    l.minimum <= processes <= l.poolMaximum
  }

  predicate Within(shift: nat, a: int, b: int) {
    a - b <= shift && b - a <= shift
  }

  /** A step goes the right way exactly when a growing pool is not over its maximum and a shrinking one not under the minimum. */
  lemma StepsTowardsExactly(l: Limits, p: Demand, total: int)
    ensures Towards(p, NextPool(l, p, total))
       <==> (p.desired > p.current ==> p.current <= l.poolMaximum) && (p.desired < p.current ==> l.minimum <= p.current)
  {
  }

  /** A pool within its range stays there, moves by at most the shift, and keeps the total within its bounds. */
  lemma StepStaysInRange(l: Limits, p: Demand, total: int)
    requires InRange(l, p.current)
    ensures var next := NextPool(l, p, total);
            && InRange(l, next) && Towards(p, next) && Within(l.shift, p.current, next)
            && Smaller(total, l.minimum) <= total + (next - p.current) <= Larger(total, l.maximum)
  {
  }

  /** A pool within its range moves exactly when it wants to and the shift, its range and the total leave room. */
  predicate CanMove(l: Limits, p: Demand, total: int) {
    l.shift > 0
    && ((p.desired > p.current && total < l.maximum && p.current < l.poolMaximum)
        || (p.desired < p.current && total > l.minimum && p.current > l.minimum))
  }

  lemma MovesExactlyWhenItCan(l: Limits, p: Demand, total: int)
    requires InRange(l, p.current)
    ensures NextPool(l, p, total) != p.current <==> CanMove(l, p, total)
  {
  }

  /** What a growing pool may reach: no more than it asks for, its maximum, the shift, and the room under the total's maximum. */
  ghost predicate MayGrowTo(l: Limits, p: Demand, total: int, n: int) {
    && n <= p.desired && n <= l.poolMaximum && n <= p.current + l.shift
    && (n > p.current ==> total + (n - p.current) <= l.maximum)
  }

  ghost predicate MayShrinkTo(l: Limits, p: Demand, total: int, n: int) {
    && n >= p.desired && n >= l.minimum && n >= p.current - l.shift
    && (n < p.current ==> total + (n - p.current) >= l.minimum)
  }

  /** The next size is as far as the pool may go: the greatest it may grow to or the least it may shrink to. */
  ghost predicate GoesAsFarAsItMay(l: Limits, p: Demand, total: int, next: int) {
    && (p.desired > p.current ==> MayGrowTo(l, p, total, next) && forall n :: MayGrowTo(l, p, total, n) ==> n <= next)
    && (p.desired < p.current ==> MayShrinkTo(l, p, total, next) && forall n :: MayShrinkTo(l, p, total, n) ==> n >= next)
    && (p.desired == p.current ==> next == p.current)
  }

  /** Within its range or not, at whatever total, a pool goes as far as it may. */
  lemma NextPoolGoesAsFarAsItMay(l: Limits, p: Demand, total: int)
    ensures GoesAsFarAsItMay(l, p, total, NextPool(l, p, total))
    ensures forall n :: GoesAsFarAsItMay(l, p, total, n) ==> n == NextPool(l, p, total)
  {
  }

  // ----- All pools, in some order -----

  function Sum(s: seq<int>): int {
    if s == [] then 0 else s[0] + Sum(s[1..])
  }

  function Currents(pools: seq<Demand>): (r: seq<int>)
    ensures |r| == |pools| && forall i :: 0 <= i < |pools| ==> r[i] == pools[i].current
  {
    seq(|pools|, i requires 0 <= i < |pools| => pools[i].current)
  }

  /** The pools' next sizes when they are dealt with from the first to the last. */
  function Project(l: Limits, pools: seq<Demand>, total: int): (next: seq<int>)
    ensures |next| == |pools|
  {
    if pools == [] then []
    else
      var n := NextPool(l, pools[0], total);
      [n] + Project(l, pools[1..], total + (n - pools[0].current))
  }

  ghost predicate AllInRange(l: Limits, pools: seq<Demand>) {
    forall i :: 0 <= i < |pools| ==> InRange(l, pools[i].current)
  }

  /** In every order, every pool stays in range and moves towards its demand by at most the shift. */
  lemma {:induction false} PoolsStayInRange(l: Limits, pools: seq<Demand>, total: int)
    requires AllInRange(l, pools)
    ensures var next := Project(l, pools, total);
            forall i :: 0 <= i < |pools| ==>
              InRange(l, next[i]) && Towards(pools[i], next[i]) && Within(l.shift, pools[i].current, next[i])
    decreases |pools|
  {
    if pools != [] {
      StepStaysInRange(l, pools[0], total);
      var n := NextPool(l, pools[0], total);
      PoolsStayInRange(l, pools[1..], total + (n - pools[0].current));
      hide NextPool, InRange, Towards, Within;
      var next := Project(l, pools, total);
      assert forall i :: 0 < i < |pools| ==> pools[i] == pools[1..][i - 1] && next[i] == next[1..][i - 1];
    }
  }

  /** The running total never leaves the interval spanned by where it starts and the two limits. */
  lemma {:induction false} TotalStaysInBounds(l: Limits, pools: seq<Demand>, total: int)
    requires AllInRange(l, pools)
    ensures var after := total + Sum(Project(l, pools, total)) - Sum(Currents(pools));
            Smaller(total, l.minimum) <= after <= Larger(total, l.maximum)
    decreases |pools|
  {
    if pools != [] {
      StepStaysInRange(l, pools[0], total);
      var n := NextPool(l, pools[0], total);
      TotalStaysInBounds(l, pools[1..], total + (n - pools[0].current));
      hide NextPool;
      assert Currents(pools)[1..] == Currents(pools[1..]);
      assert Project(l, pools, total)[1..] == Project(l, pools[1..], total + (n - pools[0].current));
    }
  }

  /** Each pool goes as far as it may at the total that the pools before it have left. */
  lemma {:induction false} EachPoolGoesAsFarAsItMay(l: Limits, pools: seq<Demand>, total: int, i: nat)
    requires i < |pools|
    ensures var next := Project(l, pools, total);
            GoesAsFarAsItMay(l, pools[i], total + Sum(next[..i]) - Sum(Currents(pools)[..i]), next[i])
    decreases i
  {
    NextPoolGoesAsFarAsItMay(l, pools[0], total);
    hide NextPool, GoesAsFarAsItMay;
    var next, currents := Project(l, pools, total), Currents(pools);
    if i > 0 {
      var rest, left := pools[1..], total + (next[0] - pools[0].current);
      EachPoolGoesAsFarAsItMay(l, rest, left, i - 1);
      assert next == [next[0]] + Project(l, rest, left);
      assert currents[1..] == Currents(rest);
      assert next[..i][1..] == Project(l, rest, left)[..i - 1] && currents[..i][1..] == Currents(rest)[..i - 1];
    }
  }

  /** Nothing moves exactly when no pool could move at the total as it stands: then the forecast is a resting point. */
  lemma {:induction false} RestsExactlyWhenNoneCanMove(l: Limits, pools: seq<Demand>, total: int)
    requires AllInRange(l, pools)
    ensures Project(l, pools, total) == Currents(pools) <==> forall i :: 0 <= i < |pools| ==> !CanMove(l, pools[i], total)
    decreases |pools|
  {
    if pools != [] {
      MovesExactlyWhenItCan(l, pools[0], total);
      var n := NextPool(l, pools[0], total);
      RestsExactlyWhenNoneCanMove(l, pools[1..], total);
      hide NextPool, CanMove, InRange;
      var next := Project(l, pools, total);
      assert next[0] == n && next[1..] == Project(l, pools[1..], total + (n - pools[0].current));
      assert Currents(pools)[1..] == Currents(pools[1..]);
      assert forall i :: 0 < i < |pools| ==> pools[i] == pools[1..][i - 1];
      assert next == [n] + next[1..] && Currents(pools) == [pools[0].current] + Currents(pools)[1..];
    }
  }

  // ----- What the workloads ask for -----

  function ReadyJobs(pools: seq<Pool>): nat {
    if pools == [] then 0 else pools[0].readyJobs + ReadyJobs(pools[1..])
  }

  function TimeToClear(pools: seq<Pool>): real {
    if pools == [] then 0.0 else pools[0].timeToClear + TimeToClear(pools[1..])
  }

  function Processes(pools: seq<Pool>): nat {
    if pools == [] then 0 else pools[0].processes + Processes(pools[1..])
  }

  /** A pool's share of the maximum, or all of it or the minimum when no time is needed at all. */
  function Share(l: Limits, strategy: Strategy, p: Pool, totalReady: nat, totalTime: real): real {
    if totalTime > 0.0 then
      (if strategy == Size then p.readyJobs as real / Larger(1, totalReady) as real else p.timeToClear / totalTime)
      * l.maximum as real
    else if p.readyJobs > 0 then l.maximum as real
    else l.minimum as real
  }

  function Shares(l: Limits, strategy: Strategy, pools: seq<Pool>, totalReady: nat, totalTime: real): real {
    if pools == [] then 0.0
    else Share(l, strategy, pools[0], totalReady, totalTime) + Shares(l, strategy, pools[1..], totalReady, totalTime)
  }

  lemma {:induction false} SharesByTime(l: Limits, pools: seq<Pool>, totalReady: nat, totalTime: real)
    requires totalTime > 0.0
    ensures Shares(l, Time, pools, totalReady, totalTime) == TimeToClear(pools) / totalTime * l.maximum as real
    decreases |pools|
  {
    if pools != [] {
      SharesByTime(l, pools[1..], totalReady, totalTime);
      Fractions(pools[0].timeToClear, TimeToClear(pools[1..]), totalTime, l.maximum as real);
    }
  }

  lemma Fractions(a: real, b: real, d: real, m: real)
    requires d > 0.0
    ensures a / d * m + b / d * m == (a + b) / d * m
  {
    assert a / d + b / d == (a + b) / d;
  }

  lemma {:induction false} SharesBySize(l: Limits, pools: seq<Pool>, totalReady: nat, totalTime: real)
    requires totalTime > 0.0
    ensures Shares(l, Size, pools, totalReady, totalTime) == ReadyJobs(pools) as real / Larger(1, totalReady) as real * l.maximum as real
    decreases |pools|
  {
    if pools != [] {
      SharesBySize(l, pools[1..], totalReady, totalTime);
      Fractions(pools[0].readyJobs as real, ReadyJobs(pools[1..]) as real, Larger(1, totalReady) as real, l.maximum as real);
      assert ReadyJobs(pools) as real == pools[0].readyJobs as real + ReadyJobs(pools[1..]) as real;
    }
  }

  /** While there is work, the shares hand out the maximum and no more; sharing by size hands out nothing without ready jobs. */
  lemma SharesAddUp(l: Limits, strategy: Strategy, pools: seq<Pool>)
    requires TimeToClear(pools) > 0.0
    ensures Shares(l, strategy, pools, ReadyJobs(pools), TimeToClear(pools))
         == if strategy == Size && ReadyJobs(pools) == 0 then 0.0 else l.maximum as real
  {
    var ready, time := ReadyJobs(pools), TimeToClear(pools);
    if strategy == Time {
      SharesByTime(l, pools, ready, time);
      assert time / time == 1.0;
    } else {
      SharesBySize(l, pools, ready, time);
      if ready > 0 {
        assert ready as real / ready as real == 1.0;
      } else {
        assert 0.0 / 1.0 * l.maximum as real == 0.0;
      }
    }
  }

  /** Pools share in proportion to the time they need, or to their ready jobs. */
  lemma SharesAreProportional(l: Limits, strategy: Strategy, p: Pool, q: Pool, totalReady: nat, totalTime: real)
    requires totalTime > 0.0
    ensures strategy == Time ==>
              Share(l, strategy, p, totalReady, totalTime) * q.timeToClear == Share(l, strategy, q, totalReady, totalTime) * p.timeToClear
    ensures strategy == Size ==>
              Share(l, strategy, p, totalReady, totalTime) * q.readyJobs as real == Share(l, strategy, q, totalReady, totalTime) * p.readyJobs as real
  {
    if strategy == Time {
      Proportion(p.timeToClear, q.timeToClear, totalTime, l.maximum as real);
    } else {
      Proportion(p.readyJobs as real, q.readyJobs as real, Larger(1, totalReady) as real, l.maximum as real);
    }
  }

  lemma Proportion(a: real, b: real, d: real, m: real)
    requires d > 0.0
    ensures a / d * m * b == b / d * m * a
  {
    var x, y := a / d, b / d;
    assert a == x * d && b == y * d;
    assert x * m * (y * d) == y * m * (x * d);
  }

  /** When no time is needed at all, a pool with ready jobs asks for the whole maximum and any other for the minimum. */
  lemma WithoutTimeAllOrLeast(l: Limits, strategy: Strategy, pools: seq<Pool>, p: Pool)
    requires TimeToClear(pools) <= 0.0
    ensures DemandOf(RequestOf(l, strategy, pools, p)).desired == if p.readyJobs > 0 then l.maximum else l.minimum
  {
    WholeCeiling(l.maximum);
    WholeCeiling(l.minimum);
  }

  lemma WholeCeiling(n: int)
    ensures Ceiling(n as real) == n
  {
  }

  // ----- The forecast -----

  /** A pool's processes with the share it asks for. */
  datatype Request = Request(share: real, processes: nat)

  function DemandOf(r: Request): Demand {
    Demand(r.processes, Ceiling(r.share))
  }

  function Demands(requests: seq<Request>): (r: seq<Demand>)
    ensures |r| == |requests| && forall k :: 0 <= k < |r| ==> r[k] == DemandOf(requests[k])
  {
    seq(|requests|, k requires 0 <= k < |requests| => DemandOf(requests[k]))
  }

  function RequestOf(l: Limits, strategy: Strategy, pools: seq<Pool>, p: Pool): Request {
    Request(Share(l, strategy, p, ReadyJobs(pools), TimeToClear(pools)), p.processes)
  }

  function Requests(l: Limits, strategy: Strategy, pools: seq<Pool>): (r: seq<Request>)
    ensures |r| == |pools| && forall k :: 0 <= k < |r| ==> r[k] == RequestOf(l, strategy, pools, pools[k])
  {
    seq(|pools|, k requires 0 <= k < |pools| => RequestOf(l, strategy, pools, pools[k]))
  }

  ghost predicate Rising(requests: seq<Request>) {
    forall i, j :: 0 <= i < j < |requests| ==> requests[i].share <= requests[j].share
  }

  function Held(requests: seq<Request>): nat {
    if requests == [] then 0 else requests[0].processes + Held(requests[1..])
  }

  function Placed(requests: seq<Request>, x: Request): (r: seq<Request>)
    ensures multiset(r) == multiset(requests) + multiset{x} && Held(r) == Held(requests) + x.processes
  {
    if requests == [] then [x]
    else if x.share < requests[0].share then
      assert ([x] + requests)[1..] == requests;
      [x] + requests
    else
      var rest := Placed(requests[1..], x);
      assert requests == [requests[0]] + requests[1..] && ([requests[0]] + rest)[1..] == rest;
      [requests[0]] + rest
  }

  lemma {:induction false} PlacedIsRising(requests: seq<Request>, x: Request)
    requires Rising(requests)
    ensures Rising(Placed(requests, x))
    decreases |requests|
  {
    if requests != [] && x.share >= requests[0].share {
      PlacedIsRising(requests[1..], x);
      var rest := Placed(requests[1..], x);
      forall j | 0 <= j < |rest|
        ensures requests[0].share <= rest[j].share
      {
        assert rest[j] in multiset(rest);
        assert rest[j] == x || rest[j] in requests[1..];
      }
    }
  }

  /** The requests from the smallest share to the largest; equal shares keep their order. */
  function Ascended(requests: seq<Request>): (r: seq<Request>)
    ensures multiset(r) == multiset(requests)
  {
    if requests == [] then []
    else
      var last := |requests| - 1;
      assert requests == requests[..last] + [requests[last]];
      Placed(Ascended(requests[..last]), requests[last])
  }

  lemma {:induction false} AscendedIsRising(requests: seq<Request>)
    ensures Rising(Ascended(requests))
    decreases |requests|
  {
    hide Placed;
    if requests != [] {
      var last := |requests| - 1;
      AscendedIsRising(requests[..last]);
      PlacedIsRising(Ascended(requests[..last]), requests[last]);
      hide Rising;
      assert Ascended(requests) == Placed(Ascended(requests[..last]), requests[last]);
    }
  }

  lemma {:induction false} AscendedHolds(requests: seq<Request>)
    ensures Held(Ascended(requests)) == Held(requests)
    decreases |requests|
  {
    hide Placed;
    if requests != [] {
      var last := |requests| - 1;
      AscendedHolds(requests[..last]);
      HeldMore(requests[..last], requests[last]);
      hide Held;
      assert Ascended(requests) == Placed(Ascended(requests[..last]), requests[last]);
      assert requests == requests[..last] + [requests[last]];
    }
  }

  lemma {:induction false} HeldMore(requests: seq<Request>, x: Request)
    ensures Held(requests + [x]) == Held(requests) + x.processes
    decreases |requests|
  {
    if requests == [] {
      assert requests + [x] == [x] && [x][1..] == [];
    } else {
      assert (requests + [x])[0] == requests[0] && (requests + [x])[1..] == requests[1..] + [x];
      HeldMore(requests[1..], x);
    }
  }

  /** The requests for one share, in the order given. */
  ghost function Asking(requests: seq<Request>, share: real): seq<Request> {
    if requests == [] then []
    else if requests[0].share == share then [requests[0]] + Asking(requests[1..], share)
    else Asking(requests[1..], share)
  }

  lemma {:induction false} NoneAsking(requests: seq<Request>, share: real)
    requires forall k :: 0 <= k < |requests| ==> requests[k].share != share
    ensures Asking(requests, share) == []
    decreases |requests|
  {
    if requests != [] {
      NoneAsking(requests[1..], share);
    }
  }

  lemma AskingFirst(x: Request, requests: seq<Request>, share: real)
    ensures Asking([x] + requests, share) == Asking([x], share) + Asking(requests, share)
    ensures Asking([x], share) == if x.share == share then [x] else []
  {
    assert ([x] + requests)[1..] == requests && [x][1..] == [];
  }

  lemma {:induction false} AskingConcat(a: seq<Request>, b: seq<Request>, share: real)
    ensures Asking(a + b, share) == Asking(a, share) + Asking(b, share)
    decreases |a|
  {
    if a == [] {
      assert a + b == b;
    } else {
      assert (a + b)[0] == a[0] && (a + b)[1..] == a[1..] + b;
      AskingConcat(a[1..], b, share);
    }
  }

  lemma PlacedInFront(requests: seq<Request>, x: Request)
    requires Rising(requests) && (requests == [] || x.share < requests[0].share)
    ensures Placed(requests, x) == [x] + requests && forall k :: 0 <= k < |requests| ==> requests[k].share != x.share
  {
  }

  lemma PlacedBehind(requests: seq<Request>, x: Request)
    requires Rising(requests) && requests != [] && x.share >= requests[0].share
    ensures Placed(requests, x) == [requests[0]] + Placed(requests[1..], x) && Rising(requests[1..])
  {
  }

  /** A request goes behind those for the same share. */
  lemma {:induction false} PlacedIsStable(requests: seq<Request>, x: Request, share: real)
    requires Rising(requests)
    ensures Asking(Placed(requests, x), share) == Asking(requests, share) + Asking([x], share)
    decreases |requests|
  {
    hide *;
    AskingFirst(x, requests, share);
    if requests == [] || x.share < requests[0].share {
      PlacedInFront(requests, x);
      if x.share == share {
        NoneAsking(requests, share);
      }
    } else {
      var h, rest, own := Asking([requests[0]], share), requests[1..], Asking([x], share);
      PlacedBehind(requests, x);
      PlacedIsStable(rest, x, share);
      AskingFirst(requests[0], Placed(rest, x), share);
      AskingFirst(requests[0], rest, share);
      assert requests == [requests[0]] + rest;
      assert h + (Asking(rest, share) + own) == (h + Asking(rest, share)) + own;
    }
  }

  lemma {:induction false} AscendedIsStable(requests: seq<Request>, share: real)
    ensures Asking(Ascended(requests), share) == Asking(requests, share)
    decreases |requests|
  {
    hide Placed, Asking;
    if requests != [] {
      var last := |requests| - 1;
      AscendedIsStable(requests[..last], share);
      AscendedIsRising(requests[..last]);
      PlacedIsStable(Ascended(requests[..last]), requests[last], share);
      AskingConcat(requests[..last], [requests[last]], share);
      hide Rising;
      assert requests == requests[..last] + [requests[last]];
      assert Ascended(requests) == Placed(Ascended(requests[..last]), requests[last]);
    }
  }

  /** Sorts the pools by what they ask for; equal shares keep their order. */
  method AscendingOrder(requests: seq<Request>) returns (sorted: seq<Request>)
    ensures sorted == Ascended(requests)
    ensures Rising(sorted) && multiset(sorted) == multiset(requests)
    ensures forall share :: Asking(sorted, share) == Asking(requests, share)
  {
    hide Placed, Asking, Rising;
    AscendedIsRising(requests);
    forall share
      ensures Asking(Ascended(requests), share) == Asking(requests, share)
    {
      AscendedIsStable(requests, share);
    }
    sorted := [];
    for i := 0 to |requests|
      invariant sorted == Ascended(requests[..i])
    {
      assert requests[..i + 1][..i] == requests[..i];
      sorted := Placed(sorted, requests[i]);
    }
    assert requests[..|requests|] == requests;
  }

  lemma {:induction false} HeldIsProcesses(l: Limits, strategy: Strategy, all: seq<Pool>, pools: seq<Pool>, requests: seq<Request>)
    requires |requests| == |pools| && forall k :: 0 <= k < |pools| ==> requests[k] == RequestOf(l, strategy, all, pools[k])
    ensures Held(requests) == Processes(pools)
    decreases |pools|
  {
    if pools != [] {
      HeldIsProcesses(l, strategy, all, pools[1..], requests[1..]);
    }
  }

  lemma {:induction false} CurrentsAreHeld(requests: seq<Request>)
    ensures Sum(Currents(Demands(requests))) == Held(requests)
    decreases |requests|
  {
    if requests != [] {
      CurrentsAreHeld(requests[1..]);
      var d := Demands(requests);
      assert d[1..] == Demands(requests[1..]);
      assert Currents(d)[1..] == Currents(d[1..]);
    }
  }

  /** The demands of the pools in the order in which they are dealt with. */
  function OrderedDemands(options: Options, pools: seq<Pool>, strategy: Strategy): seq<Demand> {
    Demands(Ascended(Requests(LimitsOf(options, |pools|), strategy, pools)))
  }

  /** Whether every pool starts within its range does not depend on the order. */
  ghost predicate StartsInRange(options: Options, pools: seq<Pool>) {
    forall p :: p in pools ==> InRange(LimitsOf(options, |pools|), p.processes)
  }

  lemma OrderedInRange(options: Options, pools: seq<Pool>, strategy: Strategy)
    requires StartsInRange(options, pools)
    ensures AllInRange(LimitsOf(options, |pools|), OrderedDemands(options, pools, strategy))
  {
    hide InRange, LimitsOf, Share, Ascended;
    var l := LimitsOf(options, |pools|);
    var requests := Requests(l, strategy, pools);
    var ordered := Ascended(requests);
    forall k | 0 <= k < |ordered|
      ensures InRange(l, Demands(ordered)[k].current)
    {
      assert ordered[k] in multiset(ordered);
      assert ordered[k] in requests;
      var i :| 0 <= i < |requests| && requests[i] == ordered[k];
      assert pools[i] in pools;
    }
  }

  /**
    The forecast: the pools' next sizes, added up. When every pool starts within its range,
    the forecast lies between the current total and the limits, whatever the pools ask for.
  */
  method ProjectedSupervisorProcesses(options: Options, pools: seq<Pool>, strategy: Strategy) returns (projected: int)
    ensures projected == Sum(Project(LimitsOf(options, |pools|), OrderedDemands(options, pools, strategy), Processes(pools)))
    ensures StartsInRange(options, pools) ==>
              Smaller(Processes(pools), LimitsOf(options, |pools|).minimum) <= projected
              <= Larger(Processes(pools), LimitsOf(options, |pools|).maximum)
  {
    hide NextPool, InRange, Towards, Within, AllInRange, Share, Processes, ReadyJobs, TimeToClear, Held, Rising, Project, Sum, RequestOf;
    hide Ascended, StartsInRange;
    var l := LimitsOf(options, |pools|);
    var requests: seq<Request> := [];
    for i := 0 to |pools|
      invariant |requests| == i && forall k :: 0 <= k < i ==> requests[k] == RequestOf(l, strategy, pools, pools[k])
    {
      requests := requests + [RequestOf(l, strategy, pools, pools[i])];
    }
    assert requests == Requests(l, strategy, pools);
    HeldIsProcesses(l, strategy, pools, pools, requests);
    var order := AscendingOrder(requests);
    ghost var demands := Demands(order);
    AscendedHolds(requests);
    CurrentsAreHeld(order);
    projected := Processes(pools);
    ghost var next := Sum(Project(l, demands, projected));
    for k := 0 to |order|
      invariant projected + Sum(Project(l, demands[k..], projected)) - Sum(Currents(demands[k..])) == next
    {
      var demand := DemandOf(order[k]);
      ProjectStep(l, demands[k..], projected);
      assert demands[k..][1..] == demands[k + 1..];
      projected := projected + (NextPool(l, demand, projected) - demand.current);
    }
    NothingLeft(l, demands[|order|..], projected);
    if StartsInRange(options, pools) {
      OrderedInRange(options, pools, strategy);
      TotalStaysInBounds(l, demands, Processes(pools));
    }
  }

  lemma NothingLeft(l: Limits, pools: seq<Demand>, total: int)
    requires pools == []
    ensures Sum(Project(l, pools, total)) == 0 && Sum(Currents(pools)) == 0
  {
  }

  lemma ProjectStep(l: Limits, pools: seq<Demand>, total: int)
    requires pools != []
    ensures var n := NextPool(l, pools[0], total);
            && Sum(Project(l, pools, total)) == n + Sum(Project(l, pools[1..], total + (n - pools[0].current)))
            && Sum(Currents(pools)) == pools[0].current + Sum(Currents(pools[1..]))
  {
    hide NextPool;
    var n := NextPool(l, pools[0], total);
    assert Project(l, pools, total)[1..] == Project(l, pools[1..], total + (n - pools[0].current));
    assert Currents(pools)[1..] == Currents(pools[1..]);
  }
}
