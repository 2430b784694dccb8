/**
 * The panel's reverse proxy (src/lib/proxy.ts): the count of requests in flight, the drain that waits on it, and the
 * registry that lets two callers re-point the same proxy.
 */
module Proxy {
  // ----- requests in flight

  type Id = nat

  /**
   * `Finished` is the end of the upstream's answer or an error of the upstream connection, the two events that count
   * down. `Dropped` is a request that ends without either: the upstream breaks off in the middle of its answer, or the
   * client leaves.
   */
  datatype Event = Started(id: Id) | Finished(id: Id) | Dropped(id: Id)

  /** The proxy's own counter, which never goes below zero. */
  function Inflight(trace: seq<Event>, n: nat): (count: nat)
    requires n <= |trace|
    ensures count <= n
  {
    if n == 0 then 0
    else
      var before := Inflight(trace, n - 1);
      match trace[n - 1]
      case Started(_) => before + 1
      case Finished(_) => if before == 0 then 0 else before - 1
      case Dropped(_) => before
  }

  /** The requests that started and have not ended since. */
  function Open(trace: seq<Event>, n: nat): set<Id>
    requires n <= |trace|
  {
    if n == 0 then {}
    else
      match trace[n - 1]
      case Started(id) => Open(trace, n - 1) + {id}
      case Finished(id) => Open(trace, n - 1) - {id}
      case Dropped(id) => Open(trace, n - 1) - {id}
  }

  /** Every request starts under an id that is not open. */
  predicate FreshStarts(trace: seq<Event>) {
    forall i | 0 <= i < |trace| :: trace[i].Started? ==> trace[i].id !in Open(trace, i)
  }

  /** The i-th event drops an open request, which stays counted. */
  predicate Leaks(trace: seq<Event>, i: nat)
    requires i < |trace|
  {
    trace[i].Dropped? && trace[i].id in Open(trace, i)
  }

  /** The i-th event finishes a request that is not open while others are counted. */
  predicate Miscounts(trace: seq<Event>, i: nat)
    requires i < |trace|
  {
    trace[i].Finished? && trace[i].id !in Open(trace, i) && Inflight(trace, i) > 0
  }

  function LeakCount(trace: seq<Event>, n: nat): nat
    requires n <= |trace|
  {
    if n == 0 then 0 else LeakCount(trace, n - 1) + if Leaks(trace, n - 1) then 1 else 0
  }

  lemma NothingOpen(trace: seq<Event>)
    ensures |Open(trace, 0)| == 0
  {
  }

  /**
   * The counter exceeds the number of open requests by at most the number of dropped ones, so without drops not at
   * all.
   */
  lemma {:induction false} OvercountsOnlyLeaks(trace: seq<Event>, n: nat)
    requires n <= |trace| && FreshStarts(trace)
    ensures Inflight(trace, n) <= |Open(trace, n)| + LeakCount(trace, n)
  {
    hide Open;
    NothingOpen(trace);
    if n > 0 {
      OvercountsOnlyLeaks(trace, n - 1);
      OpenSize(trace, n - 1);
    }
  }

  /** How one event changes the number of open requests. */
  lemma OpenSize(trace: seq<Event>, i: nat)
    requires i < |trace| && FreshStarts(trace)
    ensures |Open(trace, i + 1)|
            == |Open(trace, i)| + if trace[i].Started? then 1 else if trace[i].id in Open(trace, i) then -1 else 0
  {
    var before := Open(trace, i);
    if !trace[i].Started? && trace[i].id !in before {
      assert before - {trace[i].id} == before;
    }
  }

  /**
   * Once a request leaks and nothing is finished twice, the counter stays above zero: every later drain takes its
   * whole grace.
   */
  lemma {:induction false} LeakStays(trace: seq<Event>, i: nat, n: nat)
    requires i < n <= |trace| && FreshStarts(trace) && Leaks(trace, i)
    requires forall k | 0 <= k < n :: !Miscounts(trace, k)
    ensures Inflight(trace, n) == |Open(trace, n)| + LeakCount(trace, n) && Inflight(trace, n) > 0
  {
    ExactWithLeaks(trace, n);
    LeakCountGrows(trace, i + 1, n);
  }

  lemma {:induction false} LeakCountGrows(trace: seq<Event>, m: nat, n: nat)
    requires m <= n <= |trace|
    ensures LeakCount(trace, m) <= LeakCount(trace, n)
  {
    if m < n {
      LeakCountGrows(trace, m, n - 1);
    }
  }

  lemma {:induction false} ExactWithLeaks(trace: seq<Event>, n: nat)
    requires n <= |trace| && FreshStarts(trace)
    requires forall i | 0 <= i < n :: !Miscounts(trace, i)
    ensures Inflight(trace, n) == |Open(trace, n)| + LeakCount(trace, n)
  {
    hide Open;
    NothingOpen(trace);
    if n > 0 {
      ExactWithLeaks(trace, n - 1);
      OpenSize(trace, n - 1);
      assert !Miscounts(trace, n - 1);
    }
  }

  ghost predicate CounterExact(trace: seq<Event>) {
    forall n | 0 <= n <= |trace| :: Inflight(trace, n) == |Open(trace, n)|
  }

  /** Every request that ends is finished, and none is finished twice while others are counted. */
  predicate FinishesOnce(trace: seq<Event>) {
    forall i | 0 <= i < |trace| :: !Leaks(trace, i) && !Miscounts(trace, i)
  }

  /** The counter is right at every moment iff every request that ends is finished exactly once. */
  lemma CounterExactIff(trace: seq<Event>)
    requires FreshStarts(trace)
    ensures CounterExact(trace) <==> FinishesOnce(trace)
  {
    if CounterExact(trace) {
      forall i | 0 <= i < |trace|
        ensures !Leaks(trace, i) && !Miscounts(trace, i)
      {
        assert Inflight(trace, i) == |Open(trace, i)| && Inflight(trace, i + 1) == |Open(trace, i + 1)|;
        OpenSize(trace, i);
      }
    }
    if FinishesOnce(trace) {
      forall n | 0 <= n <= |trace|
        ensures Inflight(trace, n) == |Open(trace, n)|
      {
        ExactWithLeaks(trace, n);
        NoLeaks(trace, n);
      }
    }
  }

  lemma {:induction false} NoLeaks(trace: seq<Event>, n: nat)
    requires n <= |trace| && forall i | 0 <= i < n :: !Leaks(trace, i)
    ensures LeakCount(trace, n) == 0
  {
    if n > 0 {
      NoLeaks(trace, n - 1);
      assert !Leaks(trace, n - 1);
    }
  }

  /** An answer that ends and then errors hides an open request from the drain. */
  lemma DoubleFinishHidesARequest()
    ensures var trace := [Started(0), Started(1), Finished(0), Finished(0)];
            FreshStarts(trace) && Inflight(trace, |trace|) == 0 && Open(trace, |trace|) == {1}
  {
    var trace := [Started(0), Started(1), Finished(0), Finished(0)];
    assert Open(trace, 0) == {} && Open(trace, 1) == {0} && Open(trace, 2) == {0, 1} && Open(trace, 3) == {1};
    assert Open(trace, 4) == {1};
    assert Inflight(trace, 1) == 1 && Inflight(trace, 2) == 2 && Inflight(trace, 3) == 1;
  }

  /** One answer that breaks off leaves the counter at 1 with nothing open. */
  lemma DroppedAnswerStaysCounted()
    ensures var trace := [Started(0), Dropped(0)];
            FreshStarts(trace) && Open(trace, |trace|) == {} && Inflight(trace, |trace|) == 1
  {
    var trace := [Started(0), Dropped(0)];
    assert Open(trace, 0) == {} && Open(trace, 1) == {0};
    assert Inflight(trace, 1) == 1;
  }

  // ----- drain

  /** What the counter and the clock show at the n-th look. */
  datatype Look = Look(inflight: nat, now: int)

  /** `drain`: look every 50 ms until nothing is in flight or the grace is over. */
  method Drain(looks: nat -> Look, graceMs: int, ghost enough: nat) returns (last: nat)
    requires looks(enough).now >= looks(0).now + graceMs
    ensures looks(last).inflight == 0 || looks(last).now >= looks(0).now + graceMs
    ensures forall i: nat | i < last :: looks(i).inflight > 0 && looks(i).now < looks(0).now + graceMs
    ensures last <= enough
  {
    var deadline := looks(0).now + graceMs;
    last := 0;
    while looks(last).inflight > 0 && looks(last).now < deadline
      invariant last <= enough
      invariant forall i: nat | i < last :: looks(i).inflight > 0 && looks(i).now < deadline
      decreases enough - last
    {
      last := last + 1;
    }
  }

  // ----- the registry

  class ManagedProxy {
    const listenPort: int
    var target: int

    constructor (listenPort: int, target: int)
      ensures this.listenPort == listenPort && this.target == target
    {
      this.listenPort, this.target := listenPort, target;
    }

    method SetTarget(port: int)
      modifies this
      ensures target == port
    {
      target := port;
    }
  }

  class Registry {
    var proxies: map<int, ManagedProxy>

    constructor ()
      ensures Valid() && proxies == map[]
    {
      proxies := map[];
    }

    ghost predicate Valid()
      reads this
    {
      forall port | port in proxies :: proxies[port].listenPort == port
    }

    /**
     * `ensureManagedProxy`: one proxy per listen port, shared by every caller and re-pointed in place. `listens` is
     * whether a new proxy can bind its port.
     */
    method Ensure(listenPort: int, target: int, listens: bool) returns (proxy: ManagedProxy?)
      requires Valid()
      modifies this, proxies.Values
      ensures Valid()
      ensures proxy == null <==> listenPort !in old(proxies) && !listens
      ensures proxy != null ==> proxies == old(proxies)[listenPort := proxy] && proxy.target == target
      ensures proxy == null ==> proxies == old(proxies)
      ensures listenPort in old(proxies) ==> proxy == old(proxies)[listenPort]
      ensures listenPort !in old(proxies) && proxy != null ==> fresh(proxy)
      ensures forall port | port in old(proxies) && port != listenPort ::
                old(proxies)[port].target == old(proxies[port].target)
    {
      if listenPort in proxies {
        proxy := proxies[listenPort];
        assert forall port | port in proxies && port != listenPort :: proxies[port] != proxy;
        proxy.SetTarget(target);
        return;
      }
      if !listens { return null; }
      var started := new ManagedProxy(listenPort, target);
      proxies := proxies[listenPort := started];
      return started;
    }
  }
}
