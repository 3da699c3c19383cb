/** The provider pool (`AbstractProviderHolder`): the active list, the excluded
    providers with their recovery strikes, the selection strategy's state and
    every provider's capacity counter, plus construction, manual exclusion and
    inclusion, the capacity relay and the admission check. */
module ProviderPool {
  import opened Collections
  import opened OrderedMap

  /** A provider's identifier. Each provider draws a random UUID, so distinct
      providers have distinct identifiers and a provider is known by its id. */
  type Id = string

  /** A provider as handed to the pool: its identifier and initial capacity. */
  datatype Provider = Provider(id: Id, capacity: int)

  /** The selection policy; the round-robin variant owns its cursor
      (`nextProviderIndex`). */
  datatype Strategy = RoundRobin(cursor: nat) | Random

  datatype StrategyKind = RoundRobinKind | RandomKind

  /** The excluded providers: an insertion-ordered map from id to the number of
      consecutive successful probes seen since exclusion (the strike). */
  type Strikes = seq<Entry<Id, int>>

  datatype Pool = Pool(
    strategy: Strategy,
    active: seq<Id>,
    excluded: Strikes,
    capacity: map<Id, int>)

  datatype Error =
    | InvalidHostList   // construction with an empty or oversized list
    | HostNotFound      // manual exclude/include of an id that is not there
    | HostsBusy         // the admission check refused the request
    | NoHostsActive     // the selected index is outside the active list

  datatype Result<T> = Ok(value: T) | Err(error: Error)

  /** Largest number of providers a pool accepts. */
  const MaxHosts: nat := 10

  /** Every provider the pool knows, whichever side it is on. */
  function Providers(p: Pool): set<Id>
  {
    (set x | x in p.active) + (set k | k in Keys(p.excluded))
  }

  /** Number of places providers occupy in the two collections. */
  function Size(p: Pool): nat
  {
    |p.active| + |p.excluded|
  }

  /** Every known provider has a capacity counter. */
  predicate Wf(p: Pool)
  {
    && (forall x :: x in p.active ==> x in p.capacity)
    && (forall k :: k in Keys(p.excluded) ==> k in p.capacity)
  }

  /** The pool invariant: active and excluded partition the providers, neither
      holds an id twice, and strikes are 0 or 1. */
  predicate Inv(p: Pool)
  {
    && Distinct(p.active)
    && Distinct(Keys(p.excluded))
    && (forall x :: x in p.active ==> x !in Keys(p.excluded))
    && (forall e :: e in p.excluded ==> e.value == 0 || e.value == 1)
    && Wf(p)
  }

  /** `isValidArrayOfProviders`. */
  predicate IsValidHostList(hosts: seq<Provider>): (ok: bool)
    ensures ok <==> 1 <= |hosts| <= MaxHosts
  {
    if |hosts| == 0 then false
    else if |hosts| > MaxHosts then false
    else true
  }

  function HostIds(hosts: seq<Provider>): (ids: seq<Id>)
    ensures |ids| == |hosts|
    ensures forall i :: 0 <= i < |hosts| ==> ids[i] == hosts[i].id
  {
    seq(|hosts|, i requires 0 <= i < |hosts| => hosts[i].id)
  }

  /** The capacity counters of the given providers. */
  function CapacityMap(hosts: seq<Provider>): (m: map<Id, int>)
    ensures forall i :: 0 <= i < |hosts| ==> hosts[i].id in m
    ensures forall k :: k in m ==> k in HostIds(hosts)
    ensures Distinct(HostIds(hosts)) ==>
              forall i :: 0 <= i < |hosts| ==> m[hosts[i].id] == hosts[i].capacity
  {
    if |hosts| == 0 then map[]
    else
      var init := hosts[..|hosts| - 1];
      var last := hosts[|hosts| - 1];
      assert forall i :: 0 <= i < |init| ==> HostIds(init)[i] == HostIds(hosts)[i];
      CapacityMap(init)[last.id := last.capacity]
  }

  /** The constructor of a round-robin or random pool: validates the list, then
      makes every given provider active, in the given order. */
  function Construct(hosts: seq<Provider>, kind: StrategyKind): (r: Result<Pool>)
    ensures r.Ok? <==> 1 <= |hosts| <= MaxHosts
    ensures r.Err? ==> r.error == InvalidHostList
    ensures r.Ok? ==> r.value.active == HostIds(hosts) && r.value.excluded == [] && Wf(r.value)
    ensures r.Ok? ==> r.value.strategy == (if kind == RoundRobinKind then RoundRobin(0) else Random)
    ensures r.Ok? && Distinct(HostIds(hosts)) ==>
              && Inv(r.value)
              && Providers(r.value) == (set i | 0 <= i < |hosts| :: hosts[i].id)
              && forall i :: 0 <= i < |hosts| ==> r.value.capacity[hosts[i].id] == hosts[i].capacity
  {
    if IsValidHostList(hosts) then
      var strategy := match kind
        case RoundRobinKind => RoundRobin(0)
        case RandomKind => Random;
      Ok(Pool(strategy, HostIds(hosts), [], CapacityMap(hosts)))
    else
      Err(InvalidHostList)
  }

  /** `excludeProviderById`: moves an active provider to the excluded map with
      strike 0, or fails when no active provider has that id. */
  function Exclude(p: Pool, id: Id): (r: Result<Pool>)
    ensures r.Ok? <==> id in p.active
    ensures r.Err? ==> r.error == HostNotFound
    ensures r.Ok? ==> && r.value.strategy == p.strategy
                      && r.value.capacity == p.capacity
                      && id in Keys(r.value.excluded)
  {
    if id in p.active then
      Ok(p.(excluded := Put(p.excluded, id, 0), active := RemoveFirst(p.active, id)))
    else
      Err(HostNotFound)
  }

  /** `includeProviderById`: moves an excluded provider, whatever its strike,
      to the end of the active list, or fails when no excluded provider has that id. */
  function Include(p: Pool, id: Id): (r: Result<Pool>)
    ensures r.Ok? <==> id in Keys(p.excluded)
    ensures r.Err? ==> r.error == HostNotFound
    ensures r.Ok? ==> && r.value.strategy == p.strategy
                      && r.value.capacity == p.capacity
                      && r.value.active == p.active + [id]
  {
    if id in Keys(p.excluded) then
      Ok(p.(excluded := RemoveKey(p.excluded, id), active := p.active + [id]))
    else
      Err(HostNotFound)
  }

  /** `incrementCapacity(id)`: bumps the counter of the active provider with
      that id; an id that is not active is silently ignored. */
  function IncrementCapacity(p: Pool, id: Id): (r: Pool)
    requires Wf(p)
    ensures r.active == p.active && r.excluded == p.excluded && r.strategy == p.strategy
    ensures id in p.active ==> r.capacity == p.capacity[id := p.capacity[id] + 1]
    ensures id !in p.active ==> r == p
  {
    if id in p.active then p.(capacity := p.capacity[id := p.capacity[id] + 1]) else p
  }

  /** Manual exclusion moves exactly `id`: it leaves the active list (the
      others keep their order) and is appended to the excluded map with strike 0. */
  lemma ExcludeMoves(p: Pool, id: Id)
    requires Inv(p) && id in p.active
    ensures var q := Exclude(p, id).value;
      && q.active == p.active[..IndexOf(p.active, id)] + p.active[IndexOf(p.active, id) + 1..]
      && q.excluded == p.excluded + [Entry(id, 0)]
      && Keys(q.excluded) == Keys(p.excluded) + [id]
      && Distinct(q.active)
      && Distinct(Keys(q.excluded))
      && (forall x :: x in q.active <==> x in p.active && x != id)
  {
    var q := Exclude(p, id).value;
    assert q.excluded == p.excluded + [Entry(id, 0)] && Keys(q.excluded) == Keys(p.excluded) + [id]
        && Distinct(Keys(q.excluded)) by {
      AppendFreshKey(p.excluded, id, 0);
    }
    var i := IndexOf(p.active, id);
    assert q.active == p.active[..i] + p.active[i + 1..];
    DeleteDistinct(p.active, i);
  }

  /** Manual exclusion keeps the pool invariant, the set of providers and their count. */
  lemma ExcludePreservesInv(p: Pool, id: Id)
    requires Inv(p) && id in p.active
    ensures Inv(Exclude(p, id).value)
    ensures Providers(Exclude(p, id).value) == Providers(p)
    ensures Size(Exclude(p, id).value) == Size(p)
  {
    var q := Exclude(p, id).value;
    ExcludeMoves(p, id);
    assert Inv(q) by {
      assert forall x :: x in q.active ==> x !in Keys(q.excluded);
      assert forall e :: e in q.excluded ==> e in p.excluded || e == Entry(id, 0);
    }
    assert Providers(q) == Providers(p) by {
      assert forall k :: k in Keys(q.excluded) <==> k in Keys(p.excluded) || k == id;
    }
  }

  /** Manual inclusion moves exactly `id` from the excluded map (the other
      entries keep their order and strikes) to the end of the active list. */
  lemma IncludeMoves(p: Pool, id: Id)
    requires Inv(p) && id in Keys(p.excluded)
    ensures var q := Include(p, id).value;
      && var i := IndexOf(Keys(p.excluded), id);
      && q.active == p.active + [id]
      && q.excluded == p.excluded[..i] + p.excluded[i + 1..]
      && Distinct(Keys(q.excluded))
      && (forall k :: k in Keys(q.excluded) <==> k in Keys(p.excluded) && k != id)
  {
    RemovePresent(p.excluded, id);
  }

  /** Manual inclusion keeps the pool invariant, the set of providers and their count. */
  lemma IncludePreservesInv(p: Pool, id: Id)
    requires Inv(p) && id in Keys(p.excluded)
    ensures Inv(Include(p, id).value)
    ensures Providers(Include(p, id).value) == Providers(p)
    ensures Size(Include(p, id).value) == Size(p)
  {
    var q := Include(p, id).value;
    RemovePresent(p.excluded, id);
    assert Inv(q) by {
      assert Distinct(q.active) by {
        forall i, j | 0 <= i < j < |q.active| ensures q.active[i] != q.active[j] {
          if j == |p.active| { assert q.active[i] in p.active; }
        }
      }
      assert forall e :: e in q.excluded ==> e in p.excluded;
    }
    assert Providers(q) == Providers(p) by {
      assert forall x :: x in q.active <==> x in p.active || x == id;
    }
  }

  /** Excluding the same id twice: the second call finds no active provider. */
  lemma ExcludeTwiceFails(p: Pool, id: Id)
    requires Inv(p) && id in p.active
    ensures Exclude(Exclude(p, id).value, id) == Err(HostNotFound)
  {
    ExcludeMoves(p, id);
  }

  /** Including the same id twice: the second call finds no excluded provider. */
  lemma IncludeTwiceFails(p: Pool, id: Id)
    requires Inv(p) && id in Keys(p.excluded)
    ensures Include(Include(p, id).value, id) == Err(HostNotFound)
  {
    IncludeMoves(p, id);
  }

  /** Excluding and then including an active provider restores the pool except
      that the provider now sits at the end of the active list. */
  lemma ExcludeThenInclude(p: Pool, id: Id)
    requires Inv(p) && id in p.active
    ensures Exclude(p, id).Ok?
    ensures Include(Exclude(p, id).value, id)
         == Ok(p.(active := RemoveFirst(p.active, id) + [id]))
  {
    ExcludeMoves(p, id);
    RemoveAppended(p.excluded, id, 0);
  }
}
