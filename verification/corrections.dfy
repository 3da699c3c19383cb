/** Two places where `main.kt` evidently does not do what it means to, each
    shown by a concrete pool, with the behaviour the code was written to have
    defined beside it and proved.

    1. `isRequestAcceptable` asks a fresh iterator on every pass, so it only
       ever looks at the first active provider: when that one has no capacity
       the loop never ends, even if another provider has capacity. Evidently
       meant: walk the list once, accept when some provider has capacity,
       otherwise report the hosts busy.
    2. `RoundRobin.nextProvider` reduces its cursor modulo the list length
       only after a successful read, so once the active list shrinks below the
       cursor every admitted call fails with "no hosts active" although
       providers are active, until the list regrows past the cursor (a manual
       include or a health-check restore). Evidently meant: the cursor always
       names a position of the current list. */
module Corrections {
  import opened Collections
  import OrderedMap
  import opened ProviderPool
  import opened Admission
  import opened Selection
  import opened Modular
  import opened Balancer

  /** Some provider of `hosts` has capacity left. */
  function HasCapacity(hosts: seq<Id>, capacity: map<Id, int>): (b: bool)
    requires forall x :: x in hosts ==> x in capacity
    ensures b <==> exists i :: 0 <= i < |hosts| && capacity[hosts[i]] > 0
  {
    if |hosts| == 0 then false
    else if capacity[hosts[0]] > 0 then true
    else
      var b := HasCapacity(hosts[1..], capacity);
      assert b ==> exists i :: 0 <= i < |hosts| && capacity[hosts[i]] > 0 by {
        if b {
          var i :| 0 <= i < |hosts[1..]| && capacity[hosts[1..][i]] > 0;
          assert capacity[hosts[i + 1]] > 0;
        }
      }
      assert (exists i :: 0 <= i < |hosts| && capacity[hosts[i]] > 0) ==> b by {
        if exists i :: 0 <= i < |hosts| && capacity[hosts[i]] > 0 {
          var i :| 0 <= i < |hosts| && capacity[hosts[i]] > 0;
          assert i > 0 && hosts[1..][i - 1] == hosts[i];
        }
      }
      b
  }

  /** The admission check as intended: always answers, accepting exactly
      when some active provider has capacity. */
  function AdmitIntended(p: Pool): (v: Verdict)
    requires Wf(p)
    ensures v != Diverge
    ensures v == Accept <==> exists x :: x in p.active && p.capacity[x] > 0
    ensures v == Reject ==> forall x :: x in p.active ==> p.capacity[x] <= 0
  {
    if HasCapacity(p.active, p.capacity) then Accept else Reject
  }

  /** The intended loop: one iterator, advanced on every pass. */
  method IsRequestAcceptableIntended(p: Pool) returns (ok: bool)
    requires Wf(p)
    ensures ok <==> AdmitIntended(p) == Accept
    ensures ok <==> exists i :: 0 <= i < |p.active| && p.capacity[p.active[i]] > 0
  {
    var it := 0;
    while it < |p.active|
      invariant it <= |p.active|
      invariant forall i :: 0 <= i < it ==> p.capacity[p.active[i]] <= 0
    {
      if p.capacity[p.active[it]] > 0 {
        return true;
      }
      it := it + 1;
    }
    return false;
  }

  /** The check as written: the first active provider at capacity 0 and the
      second with capacity 1 make it loop for ever, where the intended check
      accepts. */
  lemma AdmitDivergesBehindBusyHead(a: Id, b: Id)
    requires a != b
    ensures var p := Pool(RoundRobin(0), [a, b], [], map[a := 0, b := 1]);
      && Admit(p) == Diverge
      && AdmitIntended(p) == Accept
  {
    var p := Pool(RoundRobin(0), [a, b], [], map[a := 0, b := 1]);
    assert b in p.active && p.capacity[b] > 0;
  }

  /** Wherever the check as written answers, the intended check gives the
      same answer; they differ only where the written one never returns. */
  lemma AdmitIntendedAgrees(p: Pool)
    requires Wf(p) && Admit(p) != Diverge
    ensures AdmitIntended(p) == Admit(p)
  {
    if Admit(p) == Accept {
      assert p.active[0] in p.active;
    }
  }

  /** The round-robin pick as intended: the cursor is taken modulo the current
      list length before the read, so any admitted call picks a provider. */
  function RoundRobinNextIntended(p: Pool): (s: Selection)
    requires Wf(p) && p.strategy.RoundRobin?
    ensures s.Picked? <==> AdmitIntended(p) == Accept
    ensures s == Failed(HostsBusy) <==> AdmitIntended(p) == Reject
    ensures s.Picked? ==> && s.id == p.active[p.strategy.cursor % |p.active|]
                          && s.pool.active == p.active
                          && s.pool.excluded == p.excluded
                          && s.pool.capacity == p.capacity
                          && s.pool.strategy == RoundRobin((p.strategy.cursor % |p.active| + 1) % |p.active|)
  {
    if AdmitIntended(p) == Reject then Failed(HostsBusy)
    else
      var i := p.strategy.cursor % |p.active|;
      NextCursorIsMod(i, |p.active|);
      Picked(p.active[i], p.(strategy := RoundRobin(NextCursor(i, |p.active|))))
  }

  /** `nextProvider` with both corrections; the random strategy only gains
      the intended admission check. */
  function NextProviderIntended(p: Pool, draw: nat): (s: Selection)
    requires Wf(p)
    ensures s != Diverges && s != Failed(NoHostsActive)
    ensures s.Picked? <==> exists x :: x in p.active && p.capacity[x] > 0
    ensures s.Picked? ==> && s.id in p.active
                          && s.pool.active == p.active
                          && s.pool.excluded == p.excluded
                          && s.pool.capacity == p.capacity
  {
    match p.strategy
    case RoundRobin(_) => RoundRobinNextIntended(p)
    case Random =>
      if AdmitIntended(p) == Reject then Failed(HostsBusy)
      else Picked(p.active[draw % |p.active|], p)
  }

  /** `get` over the corrected selection: it always answers, and it serves
      exactly when some active provider has capacity. */
  function GetIntended(p: Pool, draw: nat): (r: Step)
    requires Wf(p)
    ensures r.reply.Served? <==> exists x :: x in p.active && p.capacity[x] > 0
    ensures !r.reply.Served? ==> r == Step(Refused(HostsBusy), p)
    ensures r.reply.Served? ==> r.reply.id in p.active
    ensures r.pool.active == p.active && r.pool.excluded == p.excluded
    ensures r.pool.capacity == p.capacity
  {
    match NextProviderIntended(p, draw)
    case Picked(id, q) => Step(Served(id), IncrementCapacity(DecrementCapacity(q, id), id))
    case Failed(e) => Step(Refused(e), p)
    case Diverges => Step(Hangs, p)
  }

  /** With the cursor in range and the head provider holding capacity, the
      corrected pick is the written one. */
  lemma RoundRobinNextIntendedAgrees(p: Pool)
    requires Wf(p) && p.strategy.RoundRobin? && p.strategy.cursor < |p.active|
    requires Admit(p) != Diverge
    ensures RoundRobinNextIntended(p) == RoundRobinNext(p)
  {
    AdmitIntendedAgrees(p);
    if p.active != [] {
      ModUnique(p.strategy.cursor, |p.active|, 0, p.strategy.cursor);
    }
  }

  /** The cursor as written goes stale: one call on [a, b] serves a and
      moves the cursor to 1; excluding b then leaves that cursor over the
      one-element list [a], so the next admitted call fails with "no hosts
      active", while the corrected pick serves a. */
  lemma StaleCursorAfterExclude(a: Id, b: Id, draw: nat)
    requires a != b
    ensures var p := Pool(RoundRobin(0), [a, b], [], map[a := 1, b := 1]);
      var g := Get(p, draw);
      && g.reply == Served(a)
      && Exclude(g.pool, b).Ok?
      && Exclude(g.pool, b).value.active == [a]
      && RoundRobinNext(Exclude(g.pool, b).value) == Failed(NoHostsActive)
      && RoundRobinNextIntended(Exclude(g.pool, b).value).Picked?
      && RoundRobinNextIntended(Exclude(g.pool, b).value).id == a
  {
    var p := Pool(RoundRobin(0), [a, b], [], map[a := 1, b := 1]);
    assert AtCursor(p, 0) == p;
    RoundRobinStep(p, 0, draw);
    var g := Get(p, draw);
    assert g.pool == p.(strategy := RoundRobin(1));
    assert b in g.pool.active;
    var q := Exclude(g.pool, b).value;
    assert q.active == [a];
    ModUnique(1, 1, 1, 0);
  }

  /** The stale cursor heals only when the list regrows: the exclusion
      above leaves cursor 1 over [a] with b excluded at strike 0; including b
      again puts the list back to [a, b], and that cursor then picks b. */
  lemma StaleCursorHeals(a: Id, b: Id, draw: nat)
    requires a != b
    ensures var p := Pool(RoundRobin(0), [a, b], [], map[a := 1, b := 1]);
      var q := Exclude(Get(p, draw).pool, b).value;
      && q == Pool(RoundRobin(1), [a], [OrderedMap.Entry(b, 0)], map[a := 1, b := 1])
      && Include(q, b).Ok?
      && Include(q, b).value.active == [a, b]
      && RoundRobinNext(Include(q, b).value).Picked?
      && RoundRobinNext(Include(q, b).value).id == b
  {
    var p := Pool(RoundRobin(0), [a, b], [], map[a := 1, b := 1]);
    StaleCursorAfterExclude(a, b, draw);
    var g := Get(p, draw);
    assert g.pool == p.(strategy := RoundRobin(1)) by {
      assert AtCursor(p, 0) == p;
      RoundRobinStep(p, 0, draw);
    }
    var q := Exclude(g.pool, b).value;
    ExcludeMoves(g.pool, b);
    assert q.excluded == [OrderedMap.Entry(b, 0)];
    assert OrderedMap.Keys(q.excluded)[0] == b;
    var r := Include(q, b).value;
    assert r.active == [a, b];
  }
}
