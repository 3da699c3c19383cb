/** `LoadBalancer.get` as one sequential step: select the next provider,
    decrement its capacity counter, take its id, then relay the increment
    back to the pool by id. */
module Balancer {
  import opened Collections
  import opened ProviderPool
  import opened Admission
  import opened Selection
  import opened Modular

  /** What the caller of `get` sees. */
  datatype Reply = Served(id: Id) | Refused(error: Error) | Hangs

  /** One call of `get`: the reply and the pool it leaves behind. */
  datatype Step = Step(reply: Reply, pool: Pool)

  /** `Provider.decrementCapacity`: acts on the provider object itself,
      whichever collection holds it. */
  function DecrementCapacity(p: Pool, id: Id): (r: Pool)
    requires id in p.capacity
    ensures r.active == p.active && r.excluded == p.excluded && r.strategy == p.strategy
    ensures r.capacity.Keys == p.capacity.Keys
    ensures r.capacity[id] + 1 == p.capacity[id]
    ensures forall y :: y in p.capacity && y != id ==> r.capacity[y] == p.capacity[y]
  {
    p.(capacity := p.capacity[id := p.capacity[id] - 1])
  }

  /** `getFromNextProvider`: selection, then the decrement. */
  function GetFromNextProvider(p: Pool, draw: nat): (s: Selection)
    requires Wf(p)
    ensures s.Picked? <==> NextProvider(p, draw).Picked?
    ensures !s.Picked? ==> s == NextProvider(p, draw)
    ensures s.Picked? ==> && s.id == NextProvider(p, draw).id
                          && s.pool.active == p.active
                          && s.id in p.capacity
                          && s.pool.capacity == p.capacity[s.id := p.capacity[s.id] - 1]
                          && s.pool.excluded == p.excluded
                          && s.pool.strategy == NextProvider(p, draw).pool.strategy
  {
    var s := NextProvider(p, draw);
    if s.Picked? then Picked(s.id, DecrementCapacity(s.pool, s.id)) else s
  }

  /** `get`: the selected id is returned after `incrementCapacity` has found
      it among the active providers, so the capacity counters end where they
      started; a failed selection propagates its error and changes nothing. */
  function Get(p: Pool, draw: nat): (r: Step)
    requires Wf(p)
    ensures Wf(r.pool)
    ensures r.pool.active == p.active && r.pool.excluded == p.excluded
    ensures r.pool.capacity == p.capacity
    ensures r.reply.Served? ==> r.reply.id in p.active
    ensures !r.reply.Served? ==> r.pool == p
  {
    match GetFromNextProvider(p, draw)
    case Picked(id, q) => Step(Served(id), IncrementCapacity(q, id))
    case Failed(e) => Step(Refused(e), p)
    case Diverges => Step(Hangs, p)
  }

  /** `get` answers with the selection's outcome: the selected id, the
      selection's error, or no answer; only the round-robin cursor can move. */
  lemma GetFollowsSelection(p: Pool, draw: nat)
    requires Wf(p)
    ensures var r, s := Get(p, draw), NextProvider(p, draw);
      && (r.reply.Served? <==> s.Picked?)
      && (r.reply.Served? ==> r.reply.id == s.id && r.pool == s.pool)
      && (r.reply.Refused? <==> s.Failed?)
      && (r.reply.Refused? ==> r.reply.error == s.error)
      && (r.reply.Hangs? <==> s.Diverges?)
  {
  }

  /** A run of `get` calls on one balancer, one generator output per call:
      every call's reply in order and the final pool. A call that never
      returns ends the run. */
  datatype Run = Run(replies: seq<Reply>, pool: Pool)

  function Serve(p: Pool, draws: seq<nat>): (r: Run)
    requires Wf(p)
    ensures |r.replies| <= |draws|
    ensures r.pool.active == p.active && r.pool.excluded == p.excluded
    ensures r.pool.capacity == p.capacity
    decreases |draws|
  {
    if |draws| == 0 then Run([], p)
    else
      var s := Get(p, draws[0]);
      if s.reply.Hangs? then Run([Hangs], p)
      else
        var rest := Serve(s.pool, draws[1..]);
        Run([s.reply] + rest.replies, rest.pool)
  }

  /** The round-robin pool with its cursor set to c. */
  function AtCursor(p: Pool, c: nat): Pool
  {
    p.(strategy := RoundRobin(c))
  }

  /** One round-robin call with the cursor in range and the first provider
      holding capacity serves the provider under the cursor and advances it. */
  lemma RoundRobinStep(p: Pool, c: nat, draw: nat)
    requires Wf(p) && c < |p.active| && p.capacity[p.active[0]] > 0
    ensures Get(AtCursor(p, c), draw)
         == Step(Served(p.active[c]), AtCursor(p, NextCursor(c, |p.active|)))
  {
    var q := AtCursor(p, c);
    assert Admit(q) == Accept;
    assert NextProvider(q, draw) == Picked(p.active[c], AtCursor(p, NextCursor(c, |p.active|)));
  }

  /** The replies k round-robin calls give from cursor c when every call is
      admitted: the provider under the cursor, then the next one, wrapping. */
  function RoundRobinTrace(a: seq<Id>, c: nat, k: nat): (t: seq<Reply>)
    requires c < |a|
    ensures |t| == k
    decreases k
  {
    if k == 0 then [] else [Served(a[c])] + RoundRobinTrace(a, NextCursor(c, |a|), k - 1)
  }

  /** Reply j of the trace is the provider j steps past the starting cursor. */
  lemma {:induction false} RoundRobinTraceAt(a: seq<Id>, c: nat, k: nat)
    requires c < |a|
    ensures forall j :: 0 <= j < k ==>
              CursorAfter(c, j, |a|) < |a| && RoundRobinTrace(a, c, k)[j] == Served(a[CursorAfter(c, j, |a|)])
    decreases k
  {
    if k > 0 {
      var n := |a|;
      var c' := NextCursor(c, n);
      RoundRobinTraceAt(a, c', k - 1);
      forall j | 0 <= j < k
        ensures CursorAfter(c, j, n) < n && RoundRobinTrace(a, c, k)[j] == Served(a[CursorAfter(c, j, n)])
      {
        if j > 0 {
          CursorShift(c, j, n);
          RoundRobinTraceTail(a, c, k, j);
        }
      }
    }
  }

  /** Past its head, the trace from c is the trace from the next cursor. */
  lemma RoundRobinTraceTail(a: seq<Id>, c: nat, k: nat, j: nat)
    requires c < |a| && 0 < j < k
    ensures RoundRobinTrace(a, c, k)[j] == RoundRobinTrace(a, NextCursor(c, |a|), k - 1)[j - 1]
  {
  }

  /** While the first active provider has capacity, a round-robin run from
      cursor c answers with the trace and leaves the cursor |draws| steps on. */
  lemma {:induction false} RoundRobinServesTrace(p: Pool, c: nat, draws: seq<nat>)
    requires Wf(p) && c < |p.active| && p.capacity[p.active[0]] > 0
    ensures Serve(AtCursor(p, c), draws)
         == Run(RoundRobinTrace(p.active, c, |draws|), AtCursor(p, CursorAfter(c, |draws|, |p.active|)))
    decreases |draws|
  {
    var n := |p.active|;
    if |draws| > 0 {
      var c' := NextCursor(c, n);
      RoundRobinStep(p, c, draws[0]);
      RoundRobinServesTrace(p, c', draws[1..]);
      CursorShift(c, |draws|, n);
    }
  }

  /** Round-robin cycles through the active list: while the first active
      provider has capacity, call j of a run serves the provider j steps past
      the cursor, wrapping at the end, and the cursor ends k steps on. */
  lemma RoundRobinCycles(p: Pool, c: nat, draws: seq<nat>)
    requires Wf(p) && c < |p.active| && p.capacity[p.active[0]] > 0
    ensures |Serve(AtCursor(p, c), draws).replies| == |draws|
    ensures forall j :: 0 <= j < |draws| ==>
              && CursorAfter(c, j, |p.active|) < |p.active|
              && Serve(AtCursor(p, c), draws).replies[j] == Served(p.active[CursorAfter(c, j, |p.active|)])
    ensures Serve(AtCursor(p, c), draws).pool == AtCursor(p, CursorAfter(c, |draws|, |p.active|))
  {
    RoundRobinServesTrace(p, c, draws);
    RoundRobinTraceAt(p.active, c, |draws|);
  }

  /** The same, as remainders: call j serves active[(c + j) mod N] and the
      cursor ends at (c + k) mod N after k calls. */
  lemma RoundRobinCyclesMod(p: Pool, c: nat, draws: seq<nat>)
    requires Wf(p) && c < |p.active| && p.capacity[p.active[0]] > 0
    ensures |Serve(AtCursor(p, c), draws).replies| == |draws|
    ensures forall j :: 0 <= j < |draws| ==>
              Serve(AtCursor(p, c), draws).replies[j] == Served(p.active[(c + j) % |p.active|])
    ensures Serve(AtCursor(p, c), draws).pool == AtCursor(p, (c + |draws|) % |p.active|)
  {
    RoundRobinCycles(p, c, draws);
    forall j | 0 <= j <= |draws| ensures CursorAfter(c, j, |p.active|) == (c + j) % |p.active| {
      CursorAfterIsMod(c, j, |p.active|);
    }
  }

  /** From cursor 0, N calls serve each active provider once, in list order,
      and leave the pool as it was. */
  lemma FullRoundFromStart(p: Pool, draws: seq<nat>)
    requires Wf(p) && p.strategy == RoundRobin(0) && |p.active| > 0
    requires p.capacity[p.active[0]] > 0 && |draws| == |p.active|
    ensures Serve(p, draws).replies == seq(|p.active|, j requires 0 <= j < |p.active| => Served(p.active[j]))
    ensures Serve(p, draws).pool == p
  {
    var n := |p.active|;
    RoundRobinCycles(p, 0, draws);
    assert AtCursor(p, 0) == p;
    forall j | 0 <= j <= n ensures CursorAfter(0, j, n) == (if j < n then j else 0) {
      CursorFromZero(j, n);
    }
  }

  /** A stale round-robin cursor: once the active list is no longer than the
      cursor, every call that passes the admission check fails with "no hosts
      active" and leaves the pool, cursor included, exactly as it was; only an
      inclusion or a health-check restore that regrows the list moves it on. */
  lemma {:induction false} StaleCursorPersists(p: Pool, draws: seq<nat>)
    requires Wf(p) && p.strategy.RoundRobin? && p.strategy.cursor >= |p.active|
    requires Admit(p) == Accept
    ensures Serve(p, draws).replies == seq(|draws|, j requires 0 <= j < |draws| => Refused(NoHostsActive))
    ensures Serve(p, draws).pool == p
    decreases |draws|
  {
    if |draws| > 0 {
      assert Get(p, draws[0]) == Step(Refused(NoHostsActive), p);
      StaleCursorPersists(p, draws[1..]);
    }
  }

  /** With no active provider both strategies answer every call with "hosts
      busy" and change nothing. */
  lemma {:induction false} EmptyPoolBusy(p: Pool, draws: seq<nat>)
    requires Wf(p) && p.active == []
    ensures Serve(p, draws).replies == seq(|draws|, j requires 0 <= j < |draws| => Refused(HostsBusy))
    ensures Serve(p, draws).pool == p
    decreases |draws|
  {
    if |draws| > 0 {
      assert Get(p, draws[0]) == Step(Refused(HostsBusy), p);
      EmptyPoolBusy(p, draws[1..]);
    }
  }

  /** Three providers with capacity, round-robin from the start: four calls
      serve the first, second, third and again the first. */
  lemma ThreeProviderRound(a: Id, b: Id, c: Id, draws: seq<nat>)
    requires |draws| == 4
    ensures var p := Pool(RoundRobin(0), [a, b, c], [], map[a := 1, b := 1, c := 1]);
      Serve(p, draws) == Run([Served(a), Served(b), Served(c), Served(a)], p.(strategy := RoundRobin(1)))
  {
    var p := Pool(RoundRobin(0), [a, b, c], [], map[a := 1, b := 1, c := 1]);
    assert AtCursor(p, 0) == p;
    RoundRobinServesTrace(p, 0, draws);
    assert CursorAfter(0, 4, 3) == 1 by {
      assert CursorAfter(0, 3, 3) == 0 by { CursorFromZero(3, 3); }
    }
    ThreeProviderTrace(a, b, c);
  }

  lemma ThreeProviderTrace(a: Id, b: Id, c: Id)
    ensures RoundRobinTrace([a, b, c], 0, 4) == [Served(a), Served(b), Served(c), Served(a)]
  {
    var s := [a, b, c];
    assert RoundRobinTrace(s, 0, 1) == [Served(a)];
    assert RoundRobinTrace(s, 2, 2) == [Served(c), Served(a)];
    assert RoundRobinTrace(s, 1, 3) == [Served(b), Served(c), Served(a)];
  }
}
