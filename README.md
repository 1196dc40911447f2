# ChainResource: a verified model of the tiered storage chain

ChainResource answers a request for a value (exchange rates, in the
application) from a chain of storage tiers: memory, a file on disk and a web
service. At construction it sorts the tiers by `Level`. `GetValue` walks them
in that order, skipping tiers that cannot be read. It accepts the first read
that has a value and whose tier is not expired after the read. It then
writes that value back into every writable tier in front of the accepting
one. Each of those writes is wrapped in a try/catch. When no tier is
accepted, the result is the empty `Result`.

A tier's read is not wrapped in a try/catch
(`MizeProject/Chain/ChainResource.cs:24`). So a read that throws ends
`GetValue` with that exception: nothing is returned and nothing is backfilled.
The web tier throws on a failed request or an undecodable body. The file tier
throws on any exception other than a JSON or I/O error. The repository's
design describes a failing read as a miss and a chain that never raises.
The model follows the code: `Resolve` and the chain methods end the call
when a read throws. `ResultOf`, `EventsOf` and `TierAfter` describe the walk
in which no reached read throws, which is also the walk the design describes,
where a throwing read counts as a miss.

The model has six modules, one per file:

- `Results` (`results.dfy`): `Result<T>` and its two constructors. A null
  reference is `Option.None`.
- `Freshness` (`freshness.dfy`): the `IsExpired` rule of `StorageBase`. Time
  is an integer tick count passed in as `now`.
- `Storages` (`storages.dfy`): the tier contract (`IStorage`) and the shared
  `StorageBase` state.
  - It is one class, `Storage<T>`. Its level, flags and expiry are
    constant. `lastUpdated`, `storageValue` and `backend` are updated in
    place by `Read` and `Write`.
  - An `InMemory` backend is `MemoryStorage`, which answers from its own
    field. An `External` backend is the file or web tier. It holds what its
    store answers now: the read's result, the `LastUpdated` stamp that read
    loads, whether the read throws and whether a write throws. A write that
    does not throw replaces what the store answers, so a later read (in a
    later `GetValue` call) returns the written value with the write's stamp.
  - The pure step functions (`ReadResult`, `AfterRead`, `AfterWrite`,
    `Stored`, `Expired`) on the value type `Tier<T>` specify the methods.
- `Ordering` (`ordering.dfy`):
  - the constructor's stable `OrderBy(s => s.Level)`, as an insertion sort;
  - `List.IndexOf`;
  - the proof that the sorted chain does not depend on the order of the
    given tiers when their levels are distinct.
- `Resolution` (`resolution.dfy`): the reference `Resolve`, which gives one
  `GetValue` call as a function of the tiers' values before the call. It
  yields the result, the sequence of `Read(i)`/`Write(i, v)` calls issued
  (by index in the sorted chain), every tier's value afterwards, and
  whether the call ends by a read's exception. The lemmas prove the chain's
  guarantees about it: ordering, short-circuit, the backfill set, write-fault
  isolation, a miss on exhaustion, and when a read's exception leaves the
  call. One lemma relates two consecutive calls.
- `Chain` (`chain.dfy`): `class ChainResource` with the constructor,
  `GetValue`, `RetrieveUpdateValueFromStorages` and
  `UpdateLowerStorageLevels` (a loop of writes whose failures are ignored).
  - The `foreach` of `RetrieveUpdateValueFromStorages`, up to its early
    return, is the method `FindSource`: a loop that stops at the first
    accepted read, or at the first read that throws.
    `RetrieveUpdateValueFromStorages` then backfills and returns, returns the
    empty result, or reports the exception.
  - The exception is an `ok` out-parameter that is false when a read threw.
  - A ghost `trace` records every read and write the chain issues.
  - Each method is proved to do exactly what `Resolve` prescribes: the
    result, the calls appended to `trace` and the new value of every tier.

## Model

| member | source | states |
|---|---|---|
| Results.Empty | MizeProject/Models/Result.cs:14-17 | the one-argument constructor keeps the flag it is given (false by default) and leaves the value null |
| Results.FlagIsKept | MizeProject/Models/Result.cs:8-17 | `HasValue` is exactly the flag passed to either constructor; `Result(true, v)` holds `v`; a value is kept even when the flag is false; the default is no value |
| Freshness.NeverStampedIsExpired | MizeProject/Storages/StorageBase.cs:18-19 | a tier with no `LastUpdated` is expired at every time |
| Freshness.FreshExactlyWithinInterval | MizeProject/Storages/StorageBase.cs:21 | with a stamp, a tier is fresh exactly while `now <= stamp + interval`; an elapsed time equal to the interval is fresh, one tick more is expired |
| Freshness.ExpiryIsMonotone | MizeProject/Storages/StorageBase.cs:21 | for a fixed stamp, a tier expired at one time is expired at every later time |
| Freshness.IsExpired | MizeProject/Storages/StorageBase.cs:14-23 | the freshness rule itself: no stamp is expired; otherwise expired once more than the interval has elapsed since the stamp |
| Storages.MemoryReadOfNullIsEmpty | MizeProject/Storages/MemoryStorage.cs:9-12 | reading an empty memory tier returns the empty result |
| Storages.MemoryReadIgnoresExpiry | MizeProject/Storages/MemoryStorage.cs:15 | reading a non-empty memory tier returns `(true, StorageValue)`, expired or not |
| Storages.MemoryReadChangesNothing | MizeProject/Storages/MemoryStorage.cs:7-16 | a memory read changes neither the value nor the stamp |
| Storages.MemoryWriteStoresAndStamps | MizeProject/Storages/MemoryStorage.cs:20-21 | a memory write stores the given value and stamps the time of writing |
| Storages.WriteThenRead | MizeProject/Storages/MemoryStorage.cs:7-23 | writing a non-null value to a tier whose read and write do not throw, and then reading, returns `(true, value)` and leaves the write's stamp; this holds for the memory tier and for the file store (`FileSystemStorage.cs:23-40`, `49-68`) alike |
| Storages.FreshAfterWrite | MizeProject/Storages/MemoryStorage.cs:18-23 | after a write that did not throw, the tier stays fresh from the moment of writing until the whole interval has elapsed, before and after a later read |
| Storages.StepsKeepContract | MizeProject/Storages/StorageBase.cs:8-12 | reads and writes never change a tier's level, flags or interval, nor whether its reads and writes throw; a read leaves the store as it is |
| Storages.Expired | MizeProject/Storages/StorageBase.cs:14-23 | a windowed tier is expired by `Freshness.IsExpired` of its stamp and interval; the web tier, whose `IsExpired` is constantly false, never is |
| Storages.ReadResult | MizeProject/Storages/MemoryStorage.cs:7-16 | what a read returns: the memory tier's `(true, StorageValue)` or the empty result when null; an external tier's current answer |
| Storages.AfterRead | MizeProject/Storages/FileSystemStorage.cs:31 | a read changes only an external tier's `LastUpdated`, to the stamp its store holds, and nothing when the read throws |
| Storages.AfterWrite | MizeProject/Storages/MemoryStorage.cs:18-23 | a write that throws changes nothing; any other stores the value, stamps `now` and replaces what an external store answers |
| Storages.Stored | MizeProject/Storages/FileSystemStorage.cs:49-68 | what the file holds after a write: a later read answers the written value with the write's stamp, or the empty result without a stamp when the value is null |
| Storages.Storage.constructor | MizeProject/Storages/StorageBase.cs:3-12 | a tier takes the interval, flags and level it is given, and starts unstamped and empty |
| Storages.Storage.Memory | MizeProject/Storages/MemoryStorage.cs:4-5 | a memory tier is readable, writable, at the memory level, with the memory interval |
| Storages.Storage.File | MizeProject/Storages/FileSystemStorage.cs:6-7 | a file tier is readable, writable, at the file level, with the file interval; what its file answers and whether its read or write throws are given |
| Storages.Storage.Web | MizeProject/Storages/IStorage.cs:7-11 | the web tier (`WebServiceStorage`, lines 11-15 and 35-38 of its file) answers the contract's `IsRead` true, `IsWrite` false, `IsExpired` false and `Level` Web; its write throws, and whether its read throws is given |
| Storages.Storage.IsExpired | MizeProject/Storages/StorageBase.cs:14-23 | the tier's `IsExpired` property at `now`, by `Storages.Expired` |
| Storages.Storage.Read | MizeProject/Storages/MemoryStorage.cs:7-16 | a read reports whether it threw; one that returns gives `ReadResult` of the tier's prior value; only an external read that loads a stamp changes the tier, and only its `LastUpdated`; one that throws changes nothing |
| Storages.Storage.Write | MizeProject/Storages/MemoryStorage.cs:18-23 | a write reports whether it threw; one that did not stores the value, stamps `now` and replaces what an external store answers; one that threw changes nothing |
| Ordering.IndexOf | MizeProject/Chain/ChainResource.cs:39 | the result is -1 exactly when the tier is absent, and otherwise an index holding it |
| Ordering.IndexOfIsFirst | MizeProject/Chain/ChainResource.cs:39 | the index found is the first occurrence: the tier does not occur before it |
| Ordering.IndexOfDistinct | MizeProject/Chain/ChainResource.cs:39 | in a chain without repeated tiers, the tier at index k is found at k |
| Ordering.Insert | MizeProject/Chain/ChainResource.cs:6 | inserting into a level-sorted list keeps it sorted and adds exactly that tier |
| Ordering.InsertKeepsLevelOrder | MizeProject/Chain/ChainResource.cs:6 | inserting a tier puts it ahead of every tier already listed at its level; as the sort inserts earlier input tiers last, ties keep their input order |
| Ordering.SortByLevel | MizeProject/Chain/ChainResource.cs:6 | the sorted chain is ascending by level, a permutation of the input, keeps the input order among tiers of one level, and repeats no tier the input did not repeat |
| Ordering.SortedIsDeterminedByLevels | MizeProject/Chain/ChainResource.cs:6 | two level-sorted lists that list the same tiers at every level, in the same order, are equal |
| Ordering.StableSortIgnoresOrderAcrossLevels | MizeProject/Chain/ChainResource.cs:6 | two inputs that agree on the order within each level give the same chain |
| Ordering.PermutationGivesSameChain | MizeProject/Chain/ChainResource.cs:6 | when no two tiers share a level, every ordering of the same tiers gives the same chain |
| Ordering.PermutationKeepsLevels | MizeProject/Chain/ChainResource.cs:6 | reordering tiers with distinct levels does not change the tiers listed at any level |
| Resolution.FirstAccepting | MizeProject/Chain/ChainResource.cs:19-32 | the source is a tier whose read is accepted and no earlier tier's is; without a source no tier's read is accepted |
| Resolution.Accepts | MizeProject/Chain/ChainResource.cs:21-26 | the acceptance test: the tier is readable, its read returns with a value, and the tier is not expired once read |
| Resolution.FirstThrow | MizeProject/Chain/ChainResource.cs:19-26 | the index at which a read's exception leaves the walk: a tier whose read throws, with no earlier tier accepted or throwing; without one, no tier the walk gets to throws |
| Resolution.ReadsUpToAscending | MizeProject/Chain/ChainResource.cs:19-24 | the walk issues only reads, of tiers before its bound, in ascending order |
| Resolution.ReadsUpToCount | MizeProject/Chain/ChainResource.cs:19-24 | the walk reads every readable tier before its bound exactly once and no other tier |
| Resolution.WritesBelowAscending | MizeProject/Chain/ChainResource.cs:41-50 | the backfill issues only writes, to tiers in front of the source, in ascending order |
| Resolution.WritesBelowCount | MizeProject/Chain/ChainResource.cs:41-50 | the backfill writes the found value to every writable tier in front of the source exactly once, and writes nothing else |
| Resolution.SameFlagsSameEvents | MizeProject/Chain/ChainResource.cs:21-43 | which reads and writes are issued depends on the tiers' `IsRead`/`IsWrite` flags only |
| Resolution.ResolveAtSource | MizeProject/Chain/ChainResource.cs:26-30 | when tier k is the first to accept and no read before it throws, the call does not raise, returns `(true, value read from k)`, reads the tiers up to k, backfills the tiers in front of k and leaves the tiers past k untouched |
| Resolution.ResolveWithoutSource | MizeProject/Chain/ChainResource.cs:34 | when no tier accepts and no read throws, every readable tier is read, nothing is written and the result is empty |
| Resolution.ResolveAtThrow | MizeProject/Chain/ChainResource.cs:24 | when the read of tier f throws and no earlier tier accepts, the call raises: readable tiers up to f are read, nothing is written, tiers before f are only read, and f and every tier past it are as they were |
| Resolution.RaisesExactlyOnReachedThrow | MizeProject/Chain/ChainResource.cs:19-30 | the call ends by an exception exactly when some tier whose read throws comes before any tier that is accepted |
| Resolution.ReadsOfResolve | MizeProject/Chain/ChainResource.cs:19-30 | a tier is read exactly once if it is readable and the walk gets to it (at or before the source or the throwing read, or anywhere when there is neither), and never otherwise |
| Resolution.UnreadableNeverRead | MizeProject/Chain/ChainResource.cs:21-22 | a tier whose `IsRead` is false is never read |
| Resolution.NothingReadPastSource | MizeProject/Chain/ChainResource.cs:26-30 | once tier k is accepted, no tier past k is read |
| Resolution.WritesOfResolve | MizeProject/Chain/ChainResource.cs:39-50 | every writable tier in front of the source receives exactly one write, carrying the found value; no other tier and no other value is written; a miss or a call that raises writes nothing |
| Resolution.EventsInOrder | MizeProject/Chain/ChainResource.cs:19-56 | all reads precede all writes, and reads and writes each go in ascending tier order |
| Resolution.ResultOfResolve | MizeProject/Chain/ChainResource.cs:26-34 | the result has a value exactly when the call does not raise and some tier accepts, and then holds the value read from the first accepting tier; otherwise `HasValue` is false and the value null |
| Resolution.ExpiredHitIsSkipped | MizeProject/Chain/ChainResource.cs:24-26 | a tier whose read returns a value but which is expired after the read is never the source, and the walk goes on to read the next readable tiers until one is accepted or throws |
| Resolution.StatesAfterResolve | MizeProject/Chain/ChainResource.cs:37-56 | after a hit with no read thrown, tiers past the source are unchanged, the source and non-target tiers are only read, and each target whose write did not throw holds the found value stamped `now` |
| Resolution.StatesAfterMiss | MizeProject/Chain/ChainResource.cs:19-34 | after a miss with no read thrown, every tier has only been read |
| Resolution.StatesAfterThrow | MizeProject/Chain/ChainResource.cs:24 | after a read throws at f, the tiers before f have only been read and the tier at f and every tier past it are unchanged |
| Resolution.BackfillServesNextCall | MizeProject/Chain/ChainResource.cs:29 | after a call backfills a non-null value into a readable tier whose read and write do not throw, a later call within that tier's interval accepts it and reads no tier past it, so a backfilled file is served without calling the web tier |
| Resolution.WriteFaultsAreIsolated | MizeProject/Chain/ChainResource.cs:46-56 | whether backfill writes throw changes neither whether the call raises, nor the result, nor the reads and writes issued |
| Resolution.WriteFaultsOnlyChangeFailingTiers | MizeProject/Chain/ChainResource.cs:46-56 | whether backfill writes throw changes only what the throwing tiers hold afterwards; every other tier ends up the same |
| Resolution.Resolve | MizeProject/Chain/ChainResource.cs:15-57 | the reference every chain method is proved against: on a reached throwing read, the reads up to it and an exception; otherwise the result, reads and writes, and tier values of `ResultOf`, `EventsOf` and `StateAfter` |
| Resolution.ResultOf | MizeProject/Chain/ChainResource.cs:26-34 | the result when no read throws: the first accepting tier's value with `HasValue` true, else the empty result |
| Resolution.EventsOf | MizeProject/Chain/ChainResource.cs:19-50 | the calls when no read throws: reads of the readable tiers up to the source (or all), then writes of the found value to the writable tiers in front of it |
| Resolution.TierAfter | MizeProject/Chain/ChainResource.cs:19-56 | a tier's value after a call in which no read throws: backfilled in front of the source, read at and before it, untouched past it |
| Resolution.StateAfter | MizeProject/Chain/ChainResource.cs:19-56 | a tier's value after the call: as `TierAfter`, or, after a read throws at f, read up to f and untouched from f on |
| Chain.ChainResource.constructor | MizeProject/Chain/ChainResource.cs:3-6 | the chain holds the given tiers sorted by level, as a permutation of the input, fixed for its lifetime |
| Chain.ChainResource.GetValue | MizeProject/Chain/ChainResource.cs:7-13 | reports whether a read's exception left the call, returns `Resolve`'s result, appends exactly `Resolve`'s reads and writes to the trace, and leaves every tier as `Resolve` prescribes |
| Chain.ChainResource.RetrieveUpdateValueFromStorages | MizeProject/Chain/ChainResource.cs:15-35 | returns the first accepted read's value after backfilling, the empty result, or (with `ok` false) ends at a read that throws; raising, result, reads, writes and tier states match `Resolve` |
| Chain.ChainResource.FindSource | MizeProject/Chain/ChainResource.cs:19-32 | the walk stops at the first tier whose read throws or is accepted, with that read's result, or runs past the last tier; no earlier tier accepts or throws; it reads exactly the readable tiers up to where it stops and changes no other tier |
| Chain.ChainResource.UpdateLowerStorageLevels | MizeProject/Chain/ChainResource.cs:37-57 | writes the value to every writable tier in front of the current one, front to back; a throwing write leaves its tier unchanged and the loop goes on; tiers from the current one on are untouched |

## Left out

- File system access, JSON (de)serialisation, HTTP and directory creation are not modelled. What a file or web tier's store answers, the stamp a file read loads and whether a read or a write throws are given per tier; a write that does not throw replaces what the store answers.
- The exception a read throws is an `ok` result that is false; its type and message, and the caller's `catch` (`MizeProject/Program.cs:60-63`), are not modelled.
- Console logging (`MizeProject/Chain/ChainResource.cs:11,54` and the tiers' messages) is not modelled, because it does not affect any value.
- `async`/`Task` is modelled as sequential calls. Concurrent `GetValue` calls are out of scope.
- `DateTime.UtcNow` is an integer `now` argument, and `TimeSpan`/`DateTime` are integer tick counts. The source samples the clock at every `IsExpired` check and at every memory write. The model samples it once per `GetValue` call.
- The numeric values of `StorageLevel` are not part of this model. The model takes Memory < File < Web, the order the tests rely on.
- Chain.ChainResource.constructor: requires that no tier object is listed twice. The source accepts repeats. With a repeated tier, positions in the chain are aliases, and a per-index account of reads, writes and states does not hold.
- Chain.ChainResource.GetValue: requires `Valid()`, that is no repeated tier, for the same reason. `IndexOf` in `UpdateLowerStorageLevels` is then the loop index of the accepting tier.
- Storages.Storage.Write: a write that throws changes nothing. The file tier assigns `StorageValue` and `LastUpdated` before its disk write (`MizeProject/Storages/FileSystemStorage.cs:51-52`), so a failed disk write would leave them changed. The web tier throws before changing anything.
- Storages.Storage.Read: a file read is modelled by its answer and the stamp it loads. That read also assigns `StorageValue` (`MizeProject/Storages/FileSystemStorage.cs:32`) and returns the empty result itself when expired. Neither affects the chain, which judges `IsExpired` after the read.
- Ordering.PermutationGivesSameChain: the order of the input does not matter only when no two tiers share a level. With shared levels the stable sort keeps their input order, and `Ordering.StableSortIgnoresOrderAcrossLevels` states that general case.
- The composition root (`MizeProject/Program.cs`), configuration defaults (`StorageDefaults`), the payload type (`ExchangeRateList`, an opaque type parameter here) and the mocks are not part of this model.
