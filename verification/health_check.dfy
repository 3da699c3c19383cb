/** One tick of the health-check timer: the active scan
    (`checkRegisteredProvider`) followed by the excluded scan
    (`includeRecoveredProviders`). Probe outcomes are inputs, one per probe in
    the order the scans visit providers. */
module HealthCheck {
  import opened Collections
  import opened OrderedMap
  import opened ProviderPool

  /** The active scan as a whole: providers whose probe succeeded stay active
      in their order; the others are put in the excluded map with strike 0,
      in the order they were visited. */
  function ActiveScan(p: Pool, probes: seq<bool>): Pool
    requires |probes| == |p.active|
  {
    p.(active := Select(p.active, probes, true),
       excluded := PutAll(p.excluded, Select(p.active, probes, false), 0))
  }

  /** The providers still active after the scan has visited the first k. */
  function KeptAfter(active: seq<Id>, probes: seq<bool>, k: nat): seq<Id>
    requires |probes| == |active| && k <= |active|
  {
    if k == 0 then []
    else KeptAfter(active, probes, k - 1) + (if probes[k - 1] then [active[k - 1]] else [])
  }

  /** The providers excluded, in visiting order, after the scan has visited the first k. */
  function FailedAfter(active: seq<Id>, probes: seq<bool>, k: nat): seq<Id>
    requires |probes| == |active| && k <= |active|
  {
    if k == 0 then []
    else FailedAfter(active, probes, k - 1) + (if probes[k - 1] then [] else [active[k - 1]])
  }

  /** Visiting the first k providers one by one selects from the first k. */
  lemma {:induction false} ActiveScanPrefix(active: seq<Id>, probes: seq<bool>, k: nat)
    requires |probes| == |active| && k <= |active|
    ensures KeptAfter(active, probes, k) == Select(active[..k], probes[..k], true)
    ensures FailedAfter(active, probes, k) == Select(active[..k], probes[..k], false)
  {
    if k > 0 {
      ActiveScanPrefix(active, probes, k - 1);
      SelectSnoc(active, probes, k - 1, true);
      SelectSnoc(active, probes, k - 1, false);
    }
  }

  /** Visiting every provider one by one performs the whole active scan. */
  lemma ActiveScanWhole(p: Pool, probes: seq<bool>)
    requires |probes| == |p.active|
    ensures ActiveScan(p, probes)
         == p.(active := KeptAfter(p.active, probes, |p.active|),
               excluded := PutAll(p.excluded, FailedAfter(p.active, probes, |p.active|), 0))
  {
    ActiveScanPrefix(p.active, probes, |p.active|);
    assert p.active[..|p.active|] == p.active && probes[..|probes|] == probes;
  }

  /** Removing the provider under the iterator, when its probe fails, yields
      the state after k + 1 providers. */
  lemma ActiveRemove(active: seq<Id>, probes: seq<bool>, ex: Strikes, k: nat, hosts: seq<Id>, it: nat)
    requires |probes| == |active| && k < |active| && !probes[k]
    requires it == |KeptAfter(active, probes, k)|
    requires hosts == KeptAfter(active, probes, k) + active[k..]
    ensures it < |hosts| && hosts[it] == active[k]
    ensures hosts[..it] + hosts[it + 1..] == KeptAfter(active, probes, k + 1) + active[k + 1..]
    ensures it == |KeptAfter(active, probes, k + 1)|
    ensures PutAll(ex, FailedAfter(active, probes, k + 1), 0)
         == Put(PutAll(ex, FailedAfter(active, probes, k), 0), active[k], 0)
  {
    assert active[k + 1..] == active[k..][1..];
    IteratorRemove(KeptAfter(active, probes, k), active[k..]);
    PutAllSnoc(ex, FailedAfter(active, probes, k), active[k], 0);
  }

  /** Stepping past the provider under the iterator, when its probe succeeds,
      yields the state after k + 1 providers. */
  lemma ActiveKeep(active: seq<Id>, probes: seq<bool>, k: nat, hosts: seq<Id>, it: nat)
    requires |probes| == |active| && k < |active| && probes[k]
    requires it == |KeptAfter(active, probes, k)|
    requires hosts == KeptAfter(active, probes, k) + active[k..]
    ensures it < |hosts| && hosts[it] == active[k]
    ensures hosts == KeptAfter(active, probes, k + 1) + active[k + 1..]
    ensures it + 1 == |KeptAfter(active, probes, k + 1)|
    ensures FailedAfter(active, probes, k + 1) == FailedAfter(active, probes, k)
  {
    assert active[k..] == [active[k]] + active[k + 1..];
  }

  /** The body of the active scan's loop, with the iterator at the provider of
      position k of the original list and at position `it` of `hosts`. */
  method VisitActive(active: seq<Id>, probes: seq<bool>, ex: Strikes, k: nat,
                     hosts: seq<Id>, excluded: Strikes, it: nat)
      returns (hosts': seq<Id>, excluded': Strikes, it': nat)
    requires |probes| == |active| && k < |active|
    requires it == |KeptAfter(active, probes, k)|
    requires hosts == KeptAfter(active, probes, k) + active[k..]
    requires excluded == PutAll(ex, FailedAfter(active, probes, k), 0)
    ensures it' == |KeptAfter(active, probes, k + 1)|
    ensures hosts' == KeptAfter(active, probes, k + 1) + active[k + 1..]
    ensures excluded' == PutAll(ex, FailedAfter(active, probes, k + 1), 0)
  {
    if !probes[k] {
      ActiveRemove(active, probes, ex, k, hosts, it);
      var current := hosts[it];
      hosts' := hosts[..it] + hosts[it + 1..];   // hostIterator.remove()
      excluded' := Put(excluded, current, 0);
      it' := it;
    } else {
      ActiveKeep(active, probes, k, hosts, it);
      hosts' := hosts;
      excluded' := excluded;
      it' := it + 1;
    }
  }

  /** The loop of `checkRegisteredProvider` over the active list, recording
      the failed providers in the excluded map `ex`. */
  method ScanActive(active: seq<Id>, probes: seq<bool>, ex: Strikes)
      returns (hosts: seq<Id>, excluded: Strikes)
    requires |probes| == |active|
    ensures hosts == KeptAfter(active, probes, |active|)
    ensures excluded == PutAll(ex, FailedAfter(active, probes, |active|), 0)
  {
    hosts := active;
    excluded := ex;
    var it := 0;   // the iterator's position in `hosts`
    var k := 0;    // providers visited so far
    while k < |active|
      invariant k <= |active|
      invariant it == |KeptAfter(active, probes, k)|
      invariant hosts == KeptAfter(active, probes, k) + active[k..]
      invariant excluded == PutAll(ex, FailedAfter(active, probes, k), 0)
    {
      hosts, excluded, it := VisitActive(active, probes, ex, k, hosts, excluded, it);
      k := k + 1;
    }
    assert active[k..] == [];
  }

  /** `checkRegisteredProvider`: walks the active list with an iterator,
      removing each provider whose probe fails and recording it as excluded. */
  method CheckRegisteredProvider(p: Pool, probes: seq<bool>) returns (r: Pool)
    requires |probes| == |p.active|
    ensures r == ActiveScan(p, probes)
  {
    var hosts, excluded := ScanActive(p.active, probes, p.excluded);
    ActiveScanWhole(p, probes);
    r := p.(active := hosts, excluded := excluded);
  }

  /** The excluded scan restores an entry whose probe succeeds while its strike is 1. */
  predicate Recovers(e: Entry<Id, int>, ok: bool)
  {
    ok && e.value + 1 == 2
  }

  /** An entry that stays excluded: strike 1 after a successful probe, 0 after a failed one. */
  function Rescore(e: Entry<Id, int>, ok: bool): Entry<Id, int>
  {
    Entry(e.key, if ok then 1 else 0)
  }

  function RecoveryFlags(ex: Strikes, probes: seq<bool>): (flags: seq<bool>)
    requires |probes| == |ex|
    ensures |flags| == |ex|
  {
    seq(|ex|, i requires 0 <= i < |ex| => Recovers(ex[i], probes[i]))
  }

  function Rescored(ex: Strikes, probes: seq<bool>): (r: Strikes)
    requires |probes| == |ex|
    ensures |r| == |ex|
  {
    seq(|ex|, i requires 0 <= i < |ex| => Rescore(ex[i], probes[i]))
  }

  /** The excluded scan as a whole: recovered providers are appended to the
      active list in the map's order; the rest stay, in order, rescored. */
  function ExcludedScan(p: Pool, probes: seq<bool>): Pool
    requires |probes| == |p.excluded|
  {
    var flags := RecoveryFlags(p.excluded, probes);
    p.(active := p.active + Select(Keys(p.excluded), flags, true),
       excluded := Select(Rescored(p.excluded, probes), flags, false))
  }

  /** The entries still excluded after the scan has visited the first k. */
  function LeftAfter(ex: Strikes, probes: seq<bool>, k: nat): Strikes
    requires |probes| == |ex| && k <= |ex|
  {
    if k == 0 then []
    else LeftAfter(ex, probes, k - 1)
         + (if Recovers(ex[k - 1], probes[k - 1]) then [] else [Rescore(ex[k - 1], probes[k - 1])])
  }

  /** The providers restored after the scan has visited the first k entries. */
  function RestoredAfter(ex: Strikes, probes: seq<bool>, k: nat): seq<Id>
    requires |probes| == |ex| && k <= |ex|
  {
    if k == 0 then []
    else RestoredAfter(ex, probes, k - 1)
         + (if Recovers(ex[k - 1], probes[k - 1]) then [ex[k - 1].key] else [])
  }

  /** Visiting the first k entries one by one selects from the first k. */
  lemma {:induction false} ExcludedScanPrefix(ex: Strikes, probes: seq<bool>, k: nat)
    requires |probes| == |ex| && k <= |ex|
    ensures LeftAfter(ex, probes, k)
         == Select(Rescored(ex, probes)[..k], RecoveryFlags(ex, probes)[..k], false)
    ensures RestoredAfter(ex, probes, k)
         == Select(Keys(ex)[..k], RecoveryFlags(ex, probes)[..k], true)
  {
    if k > 0 {
      ExcludedScanPrefix(ex, probes, k - 1);
      SelectSnoc(Rescored(ex, probes), RecoveryFlags(ex, probes), k - 1, false);
      SelectSnoc(Keys(ex), RecoveryFlags(ex, probes), k - 1, true);
    }
  }

  /** The iterator over the excluded map stands at the entry of position k. */
  lemma ExcludedVisit(ex: Strikes, probes: seq<bool>, k: nat, excluded: Strikes, it: nat)
    requires |probes| == |ex| && k < |ex|
    requires it == |LeftAfter(ex, probes, k)|
    requires excluded == LeftAfter(ex, probes, k) + ex[k..]
    ensures it < |excluded| && excluded[it] == ex[k]
  {
  }

  /** Removing the entry under the iterator, when the provider recovers,
      yields the state after k + 1 entries. */
  lemma ExcludedRemove(ex: Strikes, probes: seq<bool>, k: nat, excluded: Strikes, it: nat)
    requires |probes| == |ex| && k < |ex| && Recovers(ex[k], probes[k])
    requires it == |LeftAfter(ex, probes, k)|
    requires excluded == LeftAfter(ex, probes, k) + ex[k..]
    ensures excluded[..it] + excluded[it + 1..] == LeftAfter(ex, probes, k + 1) + ex[k + 1..]
    ensures it == |LeftAfter(ex, probes, k + 1)|
    ensures RestoredAfter(ex, probes, k + 1) == RestoredAfter(ex, probes, k) + [ex[k].key]
  {
    assert ex[k + 1..] == ex[k..][1..];
    IteratorRemove(LeftAfter(ex, probes, k), ex[k..]);
  }

  /** Rewriting the strike under the iterator, when the provider does not
      recover, yields the state after k + 1 entries. */
  lemma ExcludedRescore(ex: Strikes, probes: seq<bool>, k: nat, excluded: Strikes, it: nat)
    requires |probes| == |ex| && k < |ex| && !Recovers(ex[k], probes[k])
    requires it == |LeftAfter(ex, probes, k)|
    requires excluded == LeftAfter(ex, probes, k) + ex[k..]
    ensures excluded[it := Rescore(ex[k], probes[k])] == LeftAfter(ex, probes, k + 1) + ex[k + 1..]
    ensures it + 1 == |LeftAfter(ex, probes, k + 1)|
    ensures RestoredAfter(ex, probes, k + 1) == RestoredAfter(ex, probes, k)
  {
    assert ex[k + 1..] == ex[k..][1..];
    IteratorSet(LeftAfter(ex, probes, k), ex[k..], Rescore(ex[k], probes[k]));
  }

  /** Visiting every entry one by one performs the whole excluded scan. */
  lemma ExcludedScanWhole(p: Pool, probes: seq<bool>)
    requires |probes| == |p.excluded|
    ensures ExcludedScan(p, probes)
         == p.(active := p.active + RestoredAfter(p.excluded, probes, |p.excluded|),
               excluded := LeftAfter(p.excluded, probes, |p.excluded|))
  {
    var ex := p.excluded;
    ExcludedScanPrefix(ex, probes, |ex|);
    assert Keys(ex)[..|ex|] == Keys(ex);
    assert RecoveryFlags(ex, probes)[..|ex|] == RecoveryFlags(ex, probes);
    assert Rescored(ex, probes)[..|ex|] == Rescored(ex, probes);
  }

  /** The body of the excluded scan's loop, with the iterator at the entry
      of position k of the original map and at position `it` of `excluded`. */
  method VisitExcluded(ex: Strikes, probes: seq<bool>, k: nat, excluded: Strikes, it: nat, hosts: seq<Id>)
      returns (excluded': Strikes, it': nat, hosts': seq<Id>)
    requires |probes| == |ex| && k < |ex|
    requires it == |LeftAfter(ex, probes, k)|
    requires excluded == LeftAfter(ex, probes, k) + ex[k..]
    ensures it' == |LeftAfter(ex, probes, k + 1)|
    ensures excluded' == LeftAfter(ex, probes, k + 1) + ex[k + 1..]
    ensures hosts' == hosts + (if Recovers(ex[k], probes[k]) then [ex[k].key] else [])
  {
    ExcludedVisit(ex, probes, k, excluded, it);
    var current := excluded[it];
    hosts' := hosts;
    if probes[k] {
      if current.value + 1 == 2 {
        ExcludedRemove(ex, probes, k, excluded, it);
        hosts' := hosts + [current.key];
        excluded' := excluded[..it] + excluded[it + 1..];     // hostIterator.remove()
        it' := it;
      } else {
        ExcludedRescore(ex, probes, k, excluded, it);
        excluded' := excluded[it := Entry(current.key, 1)];   // strike := 1, in place
        it' := it + 1;
      }
    } else {
      ExcludedRescore(ex, probes, k, excluded, it);
      excluded' := excluded[it := Entry(current.key, 0)];     // strike := 0, in place
      it' := it + 1;
    }
  }

  /** `includeRecoveredProviders`: walks the excluded map's key iterator; a
      second consecutive success moves the provider to the end of the active
      list and removes its entry, any other outcome rewrites its strike in place. */
  method IncludeRecoveredProviders(p: Pool, probes: seq<bool>) returns (r: Pool)
    requires |probes| == |p.excluded|
    ensures r == ExcludedScan(p, probes)
  {
    var hosts, excluded := ScanExcluded(p.excluded, probes, p.active);
    ExcludedScanWhole(p, probes);
    r := p.(active := hosts, excluded := excluded);
  }

  /** The loop of `includeRecoveredProviders` over the excluded map `ex`,
      appending recovered providers to `active`. */
  method ScanExcluded(ex: Strikes, probes: seq<bool>, active: seq<Id>)
      returns (hosts: seq<Id>, excluded: Strikes)
    requires |probes| == |ex|
    ensures hosts == active + RestoredAfter(ex, probes, |ex|)
    ensures excluded == LeftAfter(ex, probes, |ex|)
  {
    hosts := active;
    excluded := ex;
    var it := 0;   // the iterator's position in `excluded`
    var k := 0;    // entries visited so far
    while k < |ex|
      invariant k <= |ex|
      invariant it == |LeftAfter(ex, probes, k)|
      invariant excluded == LeftAfter(ex, probes, k) + ex[k..]
      invariant hosts == active + RestoredAfter(ex, probes, k)
    {
      excluded, it, hosts := VisitExcluded(ex, probes, k, excluded, it, hosts);
      k := k + 1;
    }
    assert ex[k..] == [];
  }

  /** Probe outcomes a whole cycle needs: one per active provider, then one per
      entry of the excluded map as the active scan leaves it. */
  predicate CycleProbes(p: Pool, activeProbes: seq<bool>, excludedProbes: seq<bool>)
  {
    |activeProbes| == |p.active| && |excludedProbes| == |ActiveScan(p, activeProbes).excluded|
  }

  /** One timer tick: the active scan, then the excluded scan, which also
      probes the providers the active scan has just excluded. */
  function Cycle(p: Pool, activeProbes: seq<bool>, excludedProbes: seq<bool>): (r: Pool)
    requires CycleProbes(p, activeProbes, excludedProbes)
    ensures r.strategy == p.strategy && r.capacity == p.capacity
    ensures var kept := Select(p.active, activeProbes, true);
      |kept| <= |r.active| && r.active[..|kept|] == kept
  {
    ExcludedScan(ActiveScan(p, activeProbes), excludedProbes)
  }

  /** The active scan moves exactly the failed providers: a provider stays
      active iff its probe succeeded, and the failed ones are appended to the
      excluded map, in visiting order, with strike 0, after the entries
      already there. */
  lemma ActiveScanMoves(p: Pool, probes: seq<bool>)
    requires Inv(p) && |probes| == |p.active|
    ensures var q := ActiveScan(p, probes);
      && q.excluded == p.excluded + EntriesOf(Select(p.active, probes, false), 0)
      && (forall i :: 0 <= i < |p.active| ==> (p.active[i] in q.active <==> probes[i]))
      && (forall x :: x in q.active ==> x in p.active)
  {
    var failed := Select(p.active, probes, false);
    SelectSplits(p.active, probes);
    assert forall x :: x in failed ==> x !in Keys(p.excluded);
    SelectDistinct(p.active, probes, false);
    PutAllFresh(p.excluded, failed, 0);
    SelectMembers(p.active, probes, true);
    SelectMembers(p.active, probes, false);
    forall i | 0 <= i < |p.active| && p.active[i] in Select(p.active, probes, true)
      ensures probes[i]
    {
      var j :| 0 <= j < |p.active| && probes[j] && p.active[j] == p.active[i];
    }
  }

  /** The active scan keeps the pool invariant, the set of providers and their count. */
  lemma ActiveScanPreservesInv(p: Pool, probes: seq<bool>)
    requires Inv(p) && |probes| == |p.active|
    ensures Inv(ActiveScan(p, probes))
    ensures Providers(ActiveScan(p, probes)) == Providers(p)
    ensures Size(ActiveScan(p, probes)) == Size(p)
  {
    var q := ActiveScan(p, probes);
    var kept := Select(p.active, probes, true);
    var failed := Select(p.active, probes, false);
    var ks := Keys(p.excluded);
    ActiveScanMoves(p, probes);
    SelectSplits(p.active, probes);
    assert Keys(q.excluded) == ks + failed by {
      KeysAppend(p.excluded, EntriesOf(failed, 0));
    }
    assert Distinct(Keys(q.excluded)) by {
      SelectDistinct(p.active, probes, false);
      PutAllFresh(p.excluded, failed, 0);
    }
    assert Inv(q) by {
      SelectDistinct(p.active, probes, true);
      assert forall e :: e in q.excluded ==> e in p.excluded || e in EntriesOf(failed, 0);
    }
    assert Providers(q) == Providers(p) by {
      assert forall x :: x in Keys(q.excluded) <==> x in ks || x in failed;
    }
    SelectPartition(p.active, probes);
  }

  /** Selecting entries selects their keys; the rescored entries carry the
      original keys. */
  lemma RescoredKeys(ex: Strikes, probes: seq<bool>, flags: seq<bool>)
    requires |probes| == |ex| && |flags| == |ex|
    ensures Keys(Select(Rescored(ex, probes), flags, false)) == Select(Keys(ex), flags, false)
  {
    assert Keys(Rescored(ex, probes)) == Keys(ex);
    KeysSelect(Rescored(ex, probes), flags, false);
  }

  /** The excluded scan decides each entry on its own: the provider at
      position i is restored exactly when its probe succeeds and its strike is
      already 1; otherwise it stays excluded with strike 1 after a success and
      0 after a failure. Restored providers go after the active ones. */
  lemma ExcludedScanOutcome(p: Pool, probes: seq<bool>)
    requires Inv(p) && |probes| == |p.excluded|
    ensures var q := ExcludedScan(p, probes);
      && q.active[..|p.active|] == p.active
      && (forall i :: 0 <= i < |p.excluded| ==>
            (p.excluded[i].key in q.active <==> probes[i] && p.excluded[i].value == 1))
      && (forall i :: 0 <= i < |p.excluded| && !(probes[i] && p.excluded[i].value == 1) ==>
            Entry(p.excluded[i].key, if probes[i] then 1 else 0) in q.excluded)
  {
    var q := ExcludedScan(p, probes);
    var flags := RecoveryFlags(p.excluded, probes);
    var ks := Keys(p.excluded);
    var restored := Select(ks, flags, true);
    assert q.active[..|p.active|] == p.active;
    SelectMembers(ks, flags, true);
    forall i | 0 <= i < |p.excluded|
      ensures p.excluded[i].key in q.active <==> probes[i] && p.excluded[i].value == 1
    {
      if p.excluded[i].key in q.active {
        assert ks[i] !in p.active;
        var j :| 0 <= j < |ks| && flags[j] && ks[j] == ks[i];
        assert j == i;
      } else {
        assert ks[i] !in restored;
      }
    }
    var rescored := Rescored(p.excluded, probes);
    SelectMembers(rescored, flags, false);
    forall i | 0 <= i < |p.excluded| && !(probes[i] && p.excluded[i].value == 1)
      ensures Entry(p.excluded[i].key, if probes[i] then 1 else 0) in q.excluded
    {
      assert rescored[i] == Entry(p.excluded[i].key, if probes[i] then 1 else 0);
    }
  }

  /** The excluded scan keeps the invariant, the providers and their count. */
  lemma ExcludedScanPreservesInv(p: Pool, probes: seq<bool>)
    requires Inv(p) && |probes| == |p.excluded|
    ensures Inv(ExcludedScan(p, probes))
    ensures Providers(ExcludedScan(p, probes)) == Providers(p)
    ensures Size(ExcludedScan(p, probes)) == Size(p)
    ensures ExcludedScan(p, probes).strategy == p.strategy
    ensures ExcludedScan(p, probes).capacity == p.capacity
  {
    var q := ExcludedScan(p, probes);
    var flags := RecoveryFlags(p.excluded, probes);
    var ks := Keys(p.excluded);
    var restored := Select(ks, flags, true);
    var left := Select(ks, flags, false);
    RescoredKeys(p.excluded, probes, flags);
    assert Keys(q.excluded) == left;
    SelectDistinct(ks, flags, true);
    SelectDistinct(ks, flags, false);
    SelectSplits(ks, flags);
    assert Distinct(q.active) by {
      DistinctConcat(p.active, restored);
    }
    assert forall e :: e in q.excluded ==> e.value == 0 || e.value == 1 by {
      var rescored := Rescored(p.excluded, probes);
      SelectMembers(rescored, flags, false);
      forall e | e in q.excluded ensures e.value == 0 || e.value == 1 {
        var i :| 0 <= i < |rescored| && rescored[i] == e;
      }
    }
    assert Inv(q) by {
      assert forall x :: x in restored ==> x in ks;
      assert forall x :: x in left ==> x in ks;
    }
    assert Providers(q) == Providers(p) by {
      assert forall x :: x in q.active <==> x in p.active || x in restored;
    }
    SelectPartition(ks, flags);
  }

  /** A whole cycle keeps the invariant, the providers and their count. */
  lemma CyclePreservesInv(p: Pool, activeProbes: seq<bool>, excludedProbes: seq<bool>)
    requires Inv(p) && CycleProbes(p, activeProbes, excludedProbes)
    ensures Inv(Cycle(p, activeProbes, excludedProbes))
    ensures Providers(Cycle(p, activeProbes, excludedProbes)) == Providers(p)
    ensures Size(Cycle(p, activeProbes, excludedProbes)) == Size(p)
    ensures Cycle(p, activeProbes, excludedProbes).strategy == p.strategy
    ensures Cycle(p, activeProbes, excludedProbes).capacity == p.capacity
  {
    ActiveScanPreservesInv(p, activeProbes);
    ExcludedScanPreservesInv(ActiveScan(p, activeProbes), excludedProbes);
  }

  /** A provider the active scan has just excluded is not restored in the same
      tick: its strike is 0, so the excluded scan's probe can at most raise it to 1. */
  lemma JustExcludedNotRestored(p: Pool, activeProbes: seq<bool>, excludedProbes: seq<bool>, i: nat)
    requires Inv(p) && CycleProbes(p, activeProbes, excludedProbes)
    requires i < |p.active| && !activeProbes[i]
    ensures p.active[i] !in Cycle(p, activeProbes, excludedProbes).active
    ensures p.active[i] in Keys(Cycle(p, activeProbes, excludedProbes).excluded)
  {
    var q := ActiveScan(p, activeProbes);
    var failed := Select(p.active, activeProbes, false);
    ActiveScanMoves(p, activeProbes);
    ActiveScanPreservesInv(p, activeProbes);
    SelectMembers(p.active, activeProbes, false);
    var x := p.active[i];
    assert x in failed;
    var j :| 0 <= j < |failed| && failed[j] == x;
    var n := |p.excluded| + j;
    assert q.excluded[n] == Entry(x, 0);
    ExcludedScanOutcome(q, excludedProbes);
    ExcludedScanPreservesInv(q, excludedProbes);
    var r := ExcludedScan(q, excludedProbes);
    assert Entry(x, if excludedProbes[n] then 1 else 0) in r.excluded;
    var m :| 0 <= m < |r.excluded| && r.excluded[m] == Entry(x, if excludedProbes[n] then 1 else 0);
    assert Keys(r.excluded)[m] == x;
  }

  /** A provider that stays excluded through one excluded scan, at position i
      before it and j after it, has been rescored there: strike 1 after a
      successful probe, 0 after a failed one. */
  lemma StillExcludedRescored(p: Pool, probes: seq<bool>, i: nat, j: nat)
    requires Inv(p) && |probes| == |p.excluded|
    requires i < |p.excluded| && j < |ExcludedScan(p, probes).excluded|
    requires ExcludedScan(p, probes).excluded[j].key == p.excluded[i].key
    ensures ExcludedScan(p, probes).excluded[j] == Entry(p.excluded[i].key, if probes[i] then 1 else 0)
    ensures p.excluded[i].key !in ExcludedScan(p, probes).active
  {
    var q := ExcludedScan(p, probes);
    var x := p.excluded[i].key;
    ExcludedScanPreservesInv(p, probes);
    ExcludedScanOutcome(p, probes);
    assert Keys(q.excluded)[j] == x;
    assert x !in q.active;
    var e := Entry(x, if probes[i] then 1 else 0);
    assert e in q.excluded;
    var m :| 0 <= m < |q.excluded| && q.excluded[m] == e;
    assert Keys(q.excluded)[m] == x;
    assert m == j;
  }

  /** Recovery needs two consecutive successful probes: a provider that stays
      excluded through one excluded scan (at position i before it and j after
      it) is restored by the next one exactly when both of its probes succeed. */
  lemma RecoveryNeedsTwoConsecutiveSuccesses(p: Pool, first: seq<bool>, second: seq<bool>, i: nat, j: nat)
    requires Inv(p) && |first| == |p.excluded|
    requires |second| == |ExcludedScan(p, first).excluded|
    requires i < |p.excluded| && j < |second|
    requires ExcludedScan(p, first).excluded[j].key == p.excluded[i].key
    ensures p.excluded[i].key in ExcludedScan(ExcludedScan(p, first), second).active
            <==> first[i] && second[j]
  {
    StillExcludedRescored(p, first, i, j);
    ExcludedScanPreservesInv(p, first);
    ExcludedScanOutcome(ExcludedScan(p, first), second);
  }

  /** The same over two whole timer ticks, with the active scan of the second
      tick in between: a provider at position i of the excluded map the first
      excluded scan walks, still excluded after the first tick at position j,
      is active after the second tick exactly when both of its excluded-scan
      probes succeed. The active scan in between only appends to the map, so
      it does not move the provider's entry. */
  lemma RecoveryOverTwoTicks(p: Pool, a1: seq<bool>, e1: seq<bool>, a2: seq<bool>, e2: seq<bool>, i: nat, j: nat)
    requires Inv(p) && CycleProbes(p, a1, e1) && CycleProbes(Cycle(p, a1, e1), a2, e2)
    requires i < |ActiveScan(p, a1).excluded| && j < |Cycle(p, a1, e1).excluded|
    requires j < |e2|  // implied: the second active scan only appends to the map
    requires Cycle(p, a1, e1).excluded[j].key == ActiveScan(p, a1).excluded[i].key
    ensures ActiveScan(p, a1).excluded[i].key in Cycle(Cycle(p, a1, e1), a2, e2).active
            <==> e1[i] && e2[j]
  {
    var p1 := ActiveScan(p, a1);
    var x := p1.excluded[i].key;
    ActiveScanPreservesInv(p, a1);
    StillExcludedRescored(p1, e1, i, j);
    var q := Cycle(p, a1, e1);
    ExcludedScanPreservesInv(p1, e1);
    var q2 := ActiveScan(q, a2);
    ActiveScanMoves(q, a2);
    ActiveScanPreservesInv(q, a2);
    assert q2.excluded[j] == q.excluded[j];
    assert x !in q2.active;
    ExcludedScanOutcome(q2, e2);
  }
}
