# Provider pool and load balancer — a Dafny model

This project models the core of a small Kotlin load balancer
(`src/main/kotlin/main.kt`). A pool of providers is split into an **active**
list and an **excluded** map. The excluded map is a `LinkedHashMap` from
provider to a recovery strike of 0 or 1.

- A periodic health check probes every active provider and excludes the ones
  that fail. It then probes every excluded provider and restores a provider
  after its second consecutive successful probe.
- Providers can also be excluded and included by id.
- Before selecting, both strategies run an admission check,
  `isRequestAcceptable`. Round-robin keeps a cursor; random draws an index.
- `LoadBalancer.get` selects a provider, decrements its capacity counter,
  takes its id, and hands the id back to the pool's `incrementCapacity`.

The model is a sequential, functional state machine over an immutable `Pool`
value with these parts:

- the strategy, including the round-robin cursor;
- the active list of ids;
- the excluded map, as an insertion-ordered sequence of `(id, strike)` entries;
- a capacity counter per id.

Each operation is a pure function returning a result or an error. The two
iterator loops of the health check are also written as methods that mirror
the Kotlin loops, including the `MutableIterator.remove` on the list being
walked. Each method is proved equal to a declarative specification.

Modules:

- `Collections` — list helpers: `find`, `remove`, and filtering driven by an iterator (`Select`).
- `OrderedMap` — the `LinkedHashMap` of excluded providers.
- `ProviderPool` — the pool state, construction, manual exclude and include, `incrementCapacity`, and the partition invariant.
- `Admission` — `isRequestAcceptable`, with an explicit `Accept | Reject | Diverge` verdict.
- `HealthCheck` — `checkRegisteredProvider`, `includeRecoveredProviders`, and one timer tick (`Cycle`).
- `Modular` — the arithmetic of the round-robin cursor.
- `Selection` — `RoundRobin.nextProvider` and `RandomProvider.nextProvider`.
- `Balancer` — `getFromNextProvider`, `get`, and runs of many `get` calls (`Serve`).
- `Corrections` — the two findings below. The behaviour evidently intended is defined and proved beside the code as written.

Four behaviours of the code are easy to misread, and the model keeps each
of them as written:

- `isRequestAcceptable` builds a fresh iterator on each pass of its loop, so
  it inspects only the first active provider, and it never returns when that
  provider's counter is 0 or less.
- An empty active list fails the admission check before either strategy
  reads the list, so both strategies refuse it as "hosts busy".
- The round-robin cursor is reduced modulo the size only after a successful
  read, so a cursor left behind by a shrinking active list is never
  re-clamped: admitted calls fail until the list regrows past it. The list
  can shrink, and regrow, through a manual exclusion or inclusion or through
  the health check.
- Admission looks only at the head of the active list, so round-robin can
  hand back a provider whose own counter is 0 or less.

Probe outcomes are inputs. An active scan takes one boolean per active
provider. An excluded scan takes one boolean per entry of the excluded map
it walks, which includes the providers the active scan has just excluded.
The random strategy takes the generator's output `draw` and uses
`draw % size`. Provider identity is the provider's id: ids are random UUIDs,
so the invariant lemmas assume they are distinct.

## Model

| member | source | states |
|---|---|---|
| Collections.IndexOf | src/main/kotlin/main.kt:74 | `find` stops at the first provider with the id: that position holds it and no earlier one does |
| Collections.RemoveFirst | src/main/kotlin/main.kt:77 | `remove(host)` deletes the first occurrence and keeps the others in order; an absent element leaves the list unchanged |
| OrderedMap.Put | src/main/kotlin/main.kt:48 | after `m[k] = v` the key reads back v and every other key reads what it read before; a present key keeps its place in the order, a new key is appended at the end |
| OrderedMap.RemovePresent | src/main/kotlin/main.kt:87 | removing a present key drops exactly that entry; the remaining keys keep their order and stay distinct |
| ProviderPool.IsValidHostList | src/main/kotlin/main.kt:18-27 | the list is valid exactly when it holds between 1 and 10 providers |
| ProviderPool.Construct | src/main/kotlin/main.kt:102-107 | construction (which runs the list validation) succeeds exactly when the list has between 1 and 10 providers and otherwise fails with the invalid-list error; on success every given provider is active in the given order, nothing is excluded, round-robin starts at cursor 0, each counter holds the given capacity, and with distinct ids the pool invariant holds |
| ProviderPool.Exclude | src/main/kotlin/main.kt:73-81 | succeeds exactly when the id is active, else fails with "host not found"; on success the id is excluded and the strategy and counters are untouched |
| ProviderPool.ExcludeMoves | src/main/kotlin/main.kt:73-81 | exclusion removes exactly that id from the active list (the others keep their order) and appends it to the excluded map with strike 0 |
| ProviderPool.ExcludePreservesInv | src/main/kotlin/main.kt:73-81 | exclusion keeps the partition invariant, the set of providers and their count |
| ProviderPool.Include | src/main/kotlin/main.kt:83-92 | succeeds exactly when the id is excluded, else fails with "host not found"; on success the id is appended to the active list |
| ProviderPool.IncludeMoves | src/main/kotlin/main.kt:83-92 | inclusion drops exactly that id's entry (the other entries keep order and strikes) and appends it to the active list |
| ProviderPool.IncludePreservesInv | src/main/kotlin/main.kt:83-92 | inclusion keeps the partition invariant, the set of providers and their count |
| ProviderPool.ExcludeTwiceFails | src/main/kotlin/main.kt:73-81 | excluding the same id a second time fails with "host not found" |
| ProviderPool.IncludeTwiceFails | src/main/kotlin/main.kt:83-92 | including the same id a second time fails with "host not found" |
| ProviderPool.ExcludeThenInclude | src/main/kotlin/main.kt:73-92 | excluding and then including an active id gives back the pool with that id moved to the end of the active list |
| ProviderPool.IncrementCapacity | src/main/kotlin/main.kt:69-71 | the counter of an active id goes up by one; an id that is not active changes nothing |
| Admission.Admit | src/main/kotlin/main.kt:94-101 | the outcome of one whole call: refusal exactly on an empty active list, acceptance exactly when the head of the active list has capacity (and so only when some active provider has), and a call that never returns on every non-empty list whose head has a counter of 0 or less |
| Admission.IsRequestAcceptable | src/main/kotlin/main.kt:94-101 | the loop answers false exactly on an empty active list and true exactly when the first active provider has capacity; otherwise it never answers, however many passes it is given |
| Admission.AdmitSeesOnlyHead | src/main/kotlin/main.kt:94-101 | the check reads only the head of the active list and its counter: two pools that agree on those get the same verdict, whatever their other providers hold |
| HealthCheck.ScanActive | src/main/kotlin/main.kt:41-52 | the iterator loop with removal leaves exactly the providers whose probe succeeded, and puts the failed ones into the excluded map with strike 0, in visiting order |
| HealthCheck.CheckRegisteredProvider | src/main/kotlin/main.kt:41-52 | the active scan on the pool equals the declarative scan: survivors filtered in order, failures put with strike 0 |
| HealthCheck.ActiveScanMoves | src/main/kotlin/main.kt:41-52 | a provider stays active exactly when its probe succeeded; the failed ones are appended after the existing excluded entries, in order, with strike 0 |
| HealthCheck.ActiveScanPreservesInv | src/main/kotlin/main.kt:41-52 | the active scan keeps the partition invariant, the set of providers and their count |
| HealthCheck.ScanExcluded | src/main/kotlin/main.kt:54-67 | the iterator loop over the excluded keys restores exactly the providers whose probe succeeded at strike 1, appending them to the active list in visiting order, and rescores the others |
| HealthCheck.IncludeRecoveredProviders | src/main/kotlin/main.kt:54-67 | the excluded scan on the pool equals the declarative scan |
| HealthCheck.ExcludedScanOutcome | src/main/kotlin/main.kt:54-67 | the active list keeps its prefix; an excluded provider is restored exactly when its probe succeeds and its strike is 1; otherwise it stays with strike 1 after a success and 0 after a failure |
| HealthCheck.ExcludedScanPreservesInv | src/main/kotlin/main.kt:54-67 | the excluded scan keeps the partition invariant, the providers, their count, the strategy and the counters |
| HealthCheck.Cycle | src/main/kotlin/main.kt:34-36 | one timer tick keeps the strategy (cursor included) and every counter, and the providers that passed the active probe lead the new active list in their old order |
| HealthCheck.CyclePreservesInv | src/main/kotlin/main.kt:29-39 | one timer tick (active scan, then excluded scan) keeps the invariant, the providers, their count, the strategy and the counters |
| HealthCheck.JustExcludedNotRestored | src/main/kotlin/main.kt:34-36 | a provider that fails its active probe is excluded at the end of the same tick, although the excluded scan probes it again |
| HealthCheck.RecoveryNeedsTwoConsecutiveSuccesses | src/main/kotlin/main.kt:54-67 | a provider that stays excluded through one excluded scan is restored by the next one exactly when both of its probes succeed |
| HealthCheck.StillExcludedRescored | src/main/kotlin/main.kt:54-67 | a provider an excluded scan leaves excluded is not active and keeps its entry with strike 1 after a successful probe and 0 after a failed one |
| HealthCheck.RecoveryOverTwoTicks | src/main/kotlin/main.kt:30-36 | over two whole timer ticks, with the second tick's active scan in between, a provider still excluded after the first tick is active after the second exactly when both of its excluded-scan probes succeed |
| Modular.NextCursorIsMod | src/main/kotlin/main.kt:117-118 | for a cursor in range, increment followed by `%= size` is the step to the next position, wrapping to 0 |
| Modular.CursorAfterIsMod | src/main/kotlin/main.kt:117-118 | j such steps from cursor c land on (c + j) mod size |
| Selection.RoundRobinNext | src/main/kotlin/main.kt:110-126 | after admission it picks the provider under the cursor; "hosts busy" exactly on an empty list; "no hosts active" exactly when admitted with the cursor off the end; no answer exactly when the check spins; a pick changes only the cursor, which stays in range |
| Selection.RoundRobinAdvances | src/main/kotlin/main.kt:116-118 | a successful pick moves the cursor to (cursor + 1) mod size |
| Selection.RandomNext | src/main/kotlin/main.kt:128-140 | after admission it picks an active provider and changes nothing; "hosts busy" exactly on an empty list; no answer exactly when the check spins |
| Selection.RandomCoversActive | src/main/kotlin/main.kt:131-133 | every active provider is picked by some generator output |
| Selection.NextProvider | src/main/kotlin/main.kt:156 | either strategy picks an active provider without touching the lists or counters, and answers "hosts busy" on an empty list |
| Balancer.DecrementCapacity | src/main/kotlin/main.kt:192-194 | the chosen counter drops by one and every other counter is unchanged |
| Balancer.GetFromNextProvider | src/main/kotlin/main.kt:155-161 | picks when the selection picks, with the same id, decrementing just that counter; the active list and excluded map are untouched and the strategy (cursor included) is the one the selection leaves; a failed selection is passed through unchanged |
| Balancer.Get | src/main/kotlin/main.kt:143-152 | the counters end where they started, the lists are unchanged, a served id is active, and a refused or hanging call leaves the pool as it was |
| Balancer.GetFollowsSelection | src/main/kotlin/main.kt:143-161 | `get` serves exactly when the selection picks (same id and pool), is refused exactly when it fails (same error), and hangs exactly when it spins |
| Balancer.Serve | src/main/kotlin/main.kt:143-152 | a run of calls keeps the lists and the counters, and answers at most once per call |
| Balancer.RoundRobinServesTrace | src/main/kotlin/main.kt:110-126 | while the first active provider has capacity, a round-robin run from cursor c answers with the reference trace (the provider under the cursor, then the next, wrapping) and leaves the cursor one step on per call |
| Balancer.RoundRobinTraceAt | src/main/kotlin/main.kt:116-118 | reply j of the reference trace is the provider j cursor steps past the start |
| Balancer.RoundRobinCycles | src/main/kotlin/main.kt:110-126 | call j of a round-robin run serves the provider j steps past the cursor, and the cursor ends one step on per call |
| Balancer.RoundRobinCyclesMod | src/main/kotlin/main.kt:110-126 | call j serves active[(c + j) mod N] and after k calls the cursor is (c + k) mod N |
| Balancer.FullRoundFromStart | src/main/kotlin/main.kt:110-126 | from cursor 0, N calls serve each active provider once in list order and leave the pool exactly as it was |
| Balancer.ThreeProviderRound | src/main/kotlin/main.kt:110-126 | three providers from cursor 0: four calls serve the first, second, third and first again, ending at cursor 1 |
| Balancer.StaleCursorPersists | src/main/kotlin/main.kt:116-121 | once the cursor is off the end of the active list, every admitted call fails with "no hosts active" and leaves the pool, cursor included, as it was, over any run of `get` calls with no exclusion, inclusion or health check in between |
| Balancer.EmptyPoolBusy | src/main/kotlin/main.kt:94-140 | with no active provider every call of either strategy fails with "hosts busy" and changes nothing |
| Corrections.HasCapacity | src/main/kotlin/main.kt:95-96 | true exactly when some listed provider has capacity |
| Corrections.AdmitIntended | src/main/kotlin/main.kt:94-101 | the intended check always answers, accepting exactly when some active provider has capacity |
| Corrections.IsRequestAcceptableIntended | src/main/kotlin/main.kt:94-101 | a single iterator walked to the end answers true exactly when some active provider has capacity |
| Corrections.AdmitDivergesBehindBusyHead | src/main/kotlin/main.kt:94-101 | for active [a, b] with capacities 0 and 1 the check as written never answers, while the intended check accepts |
| Corrections.AdmitIntendedAgrees | src/main/kotlin/main.kt:94-101 | wherever the check as written answers, the intended one gives the same answer |
| Corrections.RoundRobinNextIntended | src/main/kotlin/main.kt:116-121 | with the cursor reduced before the read, every admitted call picks active[cursor mod N] and leaves the cursor at (cursor mod N + 1) mod N |
| Corrections.RoundRobinNextIntendedAgrees | src/main/kotlin/main.kt:116-121 | with the cursor in range and the check answering, the corrected pick equals the one as written |
| Corrections.StaleCursorAfterExclude | src/main/kotlin/main.kt:116-121 | one call on [a, b] serves a and moves the cursor to 1; excluding b then makes the pick as written fail with "no hosts active", while the corrected pick serves a |
| Corrections.StaleCursorHeals | src/main/kotlin/main.kt:83-92 | the pool that `get` then excluding b leaves is cursor 1 over [a] with b excluded at strike 0; including b again restores [a, b], and that cursor picks b |
| Corrections.NextProviderIntended | src/main/kotlin/main.kt:113-137 | the corrected selection never spins and never reports "no hosts active"; it picks an active provider exactly when some active provider has capacity |
| Corrections.GetIntended | src/main/kotlin/main.kt:143-161 | the corrected `get` always answers; it serves an active provider exactly when one has capacity, and is otherwise refused with "hosts busy" without changing anything |

## Left out

- The health-check timer (`fixedRateTimer`, main.kt:30-33) is left out. One tick is the pure transition `Cycle`, with the probe outcomes as inputs.
- The coroutine in `get` (`coroutineScope`/`async`/`await`, main.kt:144-149) is left out. `get` is one sequential step.
- Races between the timer thread and requests are not modelled: the lost increment when a provider is excluded between selection and `incrementCapacity`, and `ConcurrentModificationException`. They are concurrency behaviour.
- `java.util.Random` is replaced by inputs. In `Provider.check` (main.kt:184-188) it becomes the probe sequences. In `RandomProvider` (main.kt:131-133) it becomes the `draw` parameter.
- Selection.RandomNext: the draw is reduced as `draw % size`. The uniform distribution of `nextInt` is not modelled.
- UUID generation (main.kt:178) is left out. Ids are abstract strings, assumed distinct where the invariant lemmas need it. Construction itself does not check for duplicates, and neither does the code.
- Exception messages are left out. Each `throw` becomes an `Error` constructor: invalid list, host not found, hosts busy, no hosts active.
  - The random strategy's "none of the registered host is active" branch (main.kt:134-135) cannot be reached after admission. It is mapped to "no hosts active".
- `main`, the `test` function and its console output and sleeps (main.kt:201-275) are left out. So is the Gradle build.
- Balancer.DecrementCapacity: counters are unbounded integers and never wrap; a 32-bit `AtomicInteger` at either extreme would. Its atomicity is a concurrency matter.
- ProviderPool.IncrementCapacity: counters are unbounded integers and never wrap; a 32-bit counter at `Int.MAX_VALUE` would.
- Admission.IsRequestAcceptable: a `fuel` bound stands for non-termination. `None` means the loop was still running when the fuel ran out. `Admit` gives the verdict for an unbounded number of passes.
- Balancer.GetFollowsSelection: its facts follow from unfolding `get`. They are stated as a lemma so that `Get`'s own contract stays small.

## Findings

| source | as written | input that shows it | evidently intended | confidence | as-written member | corrected member |
|---|---|---|---|---|---|---|
| src/main/kotlin/main.kt:94-101 | every pass of the loop creates a fresh iterator, so only the first active provider is inspected; when it has no capacity the loop never returns | active [a, b] with capacities a = 0, b = 1 | accept when any active provider has capacity, otherwise refuse with "hosts busy" | high; not executed | Corrections.AdmitDivergesBehindBusyHead | Corrections.AdmitIntended |
| src/main/kotlin/main.kt:116-121 | the cursor is reduced modulo the size only after a successful read, so when the active list shrinks below it every admitted call throws "no hosts active" until the list regrows past the cursor (a manual include or a health-check restore) | round-robin over [a, b]: one `get` (cursor becomes 1), then `excludeProviderById(b)` | the cursor always names a position of the current list, so an admitted call always picks a provider | high; not executed | Corrections.StaleCursorAfterExclude | Corrections.RoundRobinNextIntended |
