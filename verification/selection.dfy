/** The two selection strategies, `RoundRobin.nextProvider` and
    `RandomProvider.nextProvider`. Both first run the admission check; the
    random strategy takes the generator's output as a parameter. */
module Selection {
  import opened Collections
  import opened ProviderPool
  import opened Admission
  import opened Modular

  /** What a call of `nextProvider` does: picks a provider (and possibly moves
      the round-robin cursor), throws, or never returns. */
  datatype Selection = Picked(id: Id, pool: Pool) | Failed(error: Error) | Diverges

  /** `RoundRobin.nextProvider`: reads the provider under the cursor and
      advances the cursor modulo the list length. The cursor is not re-clamped
      when the active list shrinks, so an out-of-range cursor makes the read
      throw, which surfaces as "no hosts active", and the cursor stays put. */
  function RoundRobinNext(p: Pool): (s: Selection)
    requires Wf(p) && p.strategy.RoundRobin?
    ensures s.Picked? <==> Admit(p) == Accept && p.strategy.cursor < |p.active|
    ensures s == Failed(HostsBusy) <==> p.active == []
    ensures s == Failed(NoHostsActive) <==> Admit(p) == Accept && p.strategy.cursor >= |p.active|
    ensures s == Diverges <==> Admit(p) == Diverge
    ensures s.Picked? ==> && s.id == p.active[p.strategy.cursor]
                          && s.pool.active == p.active
                          && s.pool.excluded == p.excluded
                          && s.pool.capacity == p.capacity
                          && s.pool.strategy.RoundRobin?
                          && s.pool.strategy.cursor < |p.active|
  {
    match Admit(p)
    case Reject => Failed(HostsBusy)
    case Diverge => Diverges
    case Accept =>
      var i := p.strategy.cursor;
      if i < |p.active| then
        Picked(p.active[i], p.(strategy := RoundRobin(NextCursor(i, |p.active|))))
      else
        Failed(NoHostsActive)
  }

  /** A successful round-robin pick moves the cursor to (cursor + 1) mod N. */
  lemma RoundRobinAdvances(p: Pool)
    requires Wf(p) && p.strategy.RoundRobin? && RoundRobinNext(p).Picked?
    ensures RoundRobinNext(p).pool.strategy == RoundRobin((p.strategy.cursor + 1) % |p.active|)
  {
    NextCursorIsMod(p.strategy.cursor, |p.active|);
  }

  /** `RandomProvider.nextProvider`; `draw` is the generator's output, reduced
      to an index as `nextInt(size)` does. The strategy's own empty-list branch
      cannot be reached once the admission check has accepted. */
  function RandomNext(p: Pool, draw: nat): (s: Selection)
    requires Wf(p) && p.strategy.Random?
    ensures s.Picked? <==> Admit(p) == Accept
    ensures s == Failed(HostsBusy) <==> p.active == []
    ensures s == Diverges <==> Admit(p) == Diverge
    ensures s.Picked? ==> s.id in p.active && s.pool == p
  {
    match Admit(p)
    case Reject => Failed(HostsBusy)
    case Diverge => Diverges
    case Accept =>
      if |p.active| > 0 then Picked(p.active[draw % |p.active|], p)
      else Failed(NoHostsActive)
  }

  /** `nextProvider`, dispatched on the pool's strategy. */
  function NextProvider(p: Pool, draw: nat): (s: Selection)
    requires Wf(p)
    ensures s.Picked? ==> && s.id in p.active
                          && s.pool.active == p.active
                          && s.pool.excluded == p.excluded
                          && s.pool.capacity == p.capacity
                          && s.pool.strategy.RoundRobin? == p.strategy.RoundRobin?
    ensures p.active == [] ==> s == Failed(HostsBusy)
  {
    match p.strategy
    case RoundRobin(_) => RoundRobinNext(p)
    case Random => RandomNext(p, draw)
  }

  /** The random strategy can return every active provider: for each one
      there is a generator output that selects it. */
  lemma RandomCoversActive(p: Pool, x: Id)
    requires Wf(p) && p.strategy.Random? && Admit(p) == Accept && x in p.active
    ensures exists draw: nat :: RandomNext(p, draw) == Picked(x, p)
  {
    var i := IndexOf(p.active, x);
    ModUnique(i, |p.active|, 0, i);
    assert RandomNext(p, i) == Picked(x, p);
  }
}
