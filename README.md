# Bear store: cache, job queue and repositories in Dafny

This project models the write pipeline of a small bear catalogue service.
It also proves properties of the model.

- **Jobs.** The intended write path is an in-process FIFO of jobs (`LocalQueueService`). In the source nothing puts a job on it: the HTTP services call the repositories directly (src/service/bear.service.ts:15-89, src/service/color.service.ts:14-27), and the module wiring registers neither the queue, the processor nor the cache (src/app.module.ts:14-19).
- **Ticks.** A processor (`QueueProcessorService`) runs once per tick. It takes the head job and applies it to the database through two repositories (`BearRepository`, `ColorRepository`). When the store call did not throw, it rebuilds a read cache (`MemoryCacheService`).
- **The cache.** It holds four structures derived from the tables:
  - a size-sorted bear array;
  - an id → bear map;
  - a colour-id → bear-ids index;
  - the colour list.

  Its queries read only these four.

The model, file by file:

- `entities.dfy` (`Entities`): the persisted rows (`Bear`, `Color`, `BearColor`) and the `Option`/`Result` wrappers. `Result.Threw` stands for a thrown error.
- `store.dfy` (`Store`): the three tables as a `Database` object with SERIAL id counters, and `DbState`, the value of all tables at one moment. `Consistent` is the invariant every operation keeps:
  - ids come from the sequences;
  - every link points at an existing bear and colour;
  - colour names are unique.
- `color_names.dfy` (`ColorNames`): `trim()` / `toLowerCase()`, and the map/filter/`Set` pipeline that `addBear` normalises its colour list with.
- `bear_repository.dfy`, `color_repository.dfy`: each write is an imperative method on the `Database`. Its postcondition ties the new tables to a ghost effect function on `DbState`. Lemmas about the effect functions state what the operation means.
- `size_order.dfy` (`SizeOrder`): the cache's in-place sort of an `array<Bear>`. Its specification is a stable insertion sort. Lemmas prove sortedness, permutation and stability, and that any stable sort by size gives the same array.
- `cache_index.dfy` (`CacheIndex`): the id map, the colour index, the colour union and the size filter, each as a function following the source loop that builds it.
- `memory_cache.dfy` (`Cache`): the `MemoryCache` class. A ghost `source` records the tables the last rebuild read. `Valid()` says each structure is what a rebuild derives from `source`. The query methods are proved against the `CacheIndex` functions, and lemmas relate those answers back to the tables.
- `local_queue.dfy` (`Queue`): the `LocalQueue` class, with job ids `job-1`, `job-2`, … from a counter that only grows.
- `queue_processor.dfy` (`Processor`): `processJob` and `processQueue` over the queue, the database and the cache. `Tick`/`Ticks` are the value-level account of a run of ticks.

What the model takes as parameters:

- Whether a store call throws, such as a lost connection. A `Processor.Environment` supplies it.
- The effect of `updateBearColors`, a method the processor calls but the repository does not define.
- The order in which the database returns rows. Loaders pick rows nondeterministically, so every result is stated for any order.

Where the project's prose description and the code differ, the model follows the code:

- Colour names are unique only because `addColor` and `addBear` look names up before inserting. The schema has no such constraint. Every lookup compares names exactly. `addBear` and `deleteColor` trim and lower-case the given name before their exact lookup; `addColor` does not. So `deleteColor` never finds a colour stored with a capital letter or surrounding white space (`ColorRepository.UncleanColorNeverDeleted`).
- The cache sorts by size only, with no tie-break on the id.
- The cache holds only bears of size 0..9999.
- `getStats().colorIndexSize` counts colour keys of the index, not bears that carry a colour.
- Colours have no `hex` column; `addColor` ignores the `hex` the processor passes.

## Model

| member | source | states |
|---|---|---|
| Store.EmptyStateConsistent | src/persistence/migrations/1720703879258-Bear.ts:6-10 | the freshly migrated, empty database satisfies the store invariant; a new `Database` is valid because of it |
| ColorNames.NonEmpty | src/persistence/repositories/bear.repository.ts:29 | the filter keeps exactly the non-empty names |
| ColorNames.Dedup | src/persistence/repositories/bear.repository.ts:27-31 | `Array.from(new Set(...))` keeps every name and no name twice |
| ColorNames.Normalise | src/persistence/repositories/bear.repository.ts:27-31 | the wanted names are the non-empty cleaned names, none twice |
| ColorNames.NormaliseMembers | src/persistence/repositories/bear.repository.ts:27-31 | a name is wanted iff it is the non-empty trimmed, lower-cased form of a given name; no name is wanted twice |
| ColorNames.NormaliseIsClean | src/persistence/repositories/bear.repository.ts:27-31 | every wanted name is non-empty and already clean |
| ColorNames.NormaliseBlank | src/persistence/repositories/bear.repository.ts:23-33 | an empty list, or one of blank names only, wants no colour |
| ColorNames.ToLowerCaseIdempotent | src/persistence/repositories/bear.repository.ts:29 | lower-casing twice is lower-casing once |
| ColorNames.CleanIdempotent | src/persistence/repositories/color.repository.ts:33-34 | cleaning a cleaned name changes nothing |
| ColorNames.CleanHasNoUpperCase | src/persistence/repositories/color.repository.ts:33 | a cleaned name has no upper-case ASCII letter |
| BearRepository.MissingNames | src/persistence/repositories/bear.repository.ts:41 | the missing names are exactly the wanted names no colour has; distinct when the wanted names are |
| BearRepository.InsertColors | src/persistence/repositories/bear.repository.ts:43-51 | the bulk insert gives the k-th name the k-th next id, keeps old colours and touches no other table |
| BearRepository.InsertColorRows | src/persistence/repositories/bear.repository.ts:43-51 | the insert loop leaves the tables as `InsertColors` says |
| BearRepository.InsertColorsKeepsConsistent | src/persistence/repositories/bear.repository.ts:41-51 | inserting distinct missing names keeps names unique and makes each one a colour |
| BearRepository.InsertColorsColors | src/persistence/repositories/bear.repository.ts:43-51 | existing colours are kept and every new colour is one of the inserted names |
| BearRepository.AddBear | src/persistence/repositories/bear.repository.ts:14-74 | the tables become `AddBearEffect` of the old ones, stay consistent, and the answer is true |
| BearRepository.StoreBearWithoutColors | src/persistence/repositories/bear.repository.ts:20-25 | with no colour wanted only the bear row is saved |
| BearRepository.StoreBearKeepsConsistent | src/persistence/repositories/bear.repository.ts:14-74 | `addBear` keeps the store consistent, colour names included |
| BearRepository.StoreBearColors | src/persistence/repositories/bear.repository.ts:35-55 | afterwards every wanted name is a colour; existing colours keep id and name; a colour is created only for a wanted name that had none |
| BearRepository.StoreBearLinks | src/persistence/repositories/bear.repository.ts:53-70 | one bear row is added under a fresh id; the new links are exactly those from it to colours whose name is wanted; other links are untouched |
| BearRepository.StoreBearOneLinkPerName | src/persistence/repositories/bear.repository.ts:57-70 | the new bear has a link for every wanted name and never two links to colours of the same name |
| BearRepository.FindBearBySizeInRange | src/persistence/repositories/bear.repository.ts:76-82 | as written: every stored bear with start <= size <= end exactly once, with no links loaded |
| BearRepository.LoadBearColors | src/persistence/entities/bear.entity.ts:15-16 | the `bearColors` relation of a bear lists each of its link rows once |
| BearRepository.FindBearBySizeInRangeWithColors | src/persistence/repositories/bear.repository.ts:76-82 | every stored bear with start <= size <= end exactly once, each with all its link rows |
| BearRepository.UpdateBearSize | src/persistence/repositories/bear.repository.ts:84-87 | only that bear's size changes; true iff the bear exists |
| BearRepository.UpdateBearName | src/persistence/repositories/bear.repository.ts:89-92 | only that bear's name changes; true iff the bear exists |
| BearRepository.DeleteBear | src/persistence/repositories/bear.repository.ts:176-180 | the bear and all its links are removed, colours untouched; true iff the bear existed |
| BearRepository.AddColorToBear | src/persistence/repositories/bear.repository.ts:94-125 | throws "Bear not found" or "Color not found !" when one is missing; false and no change when the link exists; otherwise the link is added and the answer is true |
| BearRepository.DeleteLinks | src/persistence/repositories/bear.repository.ts:130-132 | a delete succeeds iff its criteria name columns of `bear_colors` |
| BearRepository.RemoveBearColorAsWritten | src/persistence/repositories/bear.repository.ts:127-137 | as written the call always throws |
| BearRepository.RemoveBearColorAsWrittenThrows | src/persistence/repositories/bear.repository.ts:130-132 | even for an existing link the wrapped criteria throw, while plain criteria remove it with one row affected |
| BearRepository.RemoveBearColor | src/persistence/repositories/bear.repository.ts:127-137 | the link is removed and nothing else changes; true iff it existed |
| ColorRepository.FindColorByName | src/persistence/repositories/color.repository.ts:15 | finds a colour iff one has exactly that name, and returns its id |
| ColorRepository.AddColor | src/persistence/repositories/color.repository.ts:14-21 | returns the id of the colour with exactly that name, the existing one or a new row with the next id; the store stays consistent |
| ColorRepository.AddColorKeepsConsistent | src/persistence/repositories/color.repository.ts:14-21 | `addColor` never creates a second colour of the same name |
| ColorRepository.AddColorIdempotent | src/persistence/repositories/color.repository.ts:15-18 | a second `addColor` of the same name changes nothing and the name's id is the existing one or the newly issued one |
| ColorRepository.GetColors | src/persistence/repositories/color.repository.ts:24-27 | every stored colour exactly once, with its name |
| ColorRepository.BearIdsWithColor | src/persistence/repositories/color.repository.ts:41-45 | the ids are exactly the bears linked to the colour |
| ColorRepository.DeleteColor | src/persistence/repositories/color.repository.ts:30-56 | the tables become `DeleteColorByName` of the old ones; true iff a colour has the cleaned name |
| ColorRepository.DeleteColorOfName | src/persistence/repositories/color.repository.ts:33-39 | in a consistent store the colour found is the only one with the cleaned name |
| ColorRepository.DeleteColorRows | src/persistence/repositories/color.repository.ts:41-52 | deleting the linked bears and then the colour leaves the tables as `DeleteColorEffect` says |
| ColorRepository.DeleteColorKeepsConsistent | src/persistence/repositories/color.repository.ts:47-52 | no link is left dangling |
| ColorRepository.DeleteColorCascade | src/persistence/repositories/color.repository.ts:41-52 | a bear survives iff it had no link to the colour; survivors and other colours are unchanged; the remaining links are those of survivors to other colours |
| ColorRepository.UncleanColorNeverDeleted | src/persistence/repositories/color.repository.ts:33-34 | a colour stored with a name that is not clean is never the one `deleteColor` finds |
| SizeOrder.SortBySize | src/cache/memory-cache.service.ts:29 | the in-place sort leaves the array as `InsertionSort` of its old content |
| SizeOrder.InsertionSortSorted | src/cache/memory-cache.service.ts:29 | the result is in non-decreasing size order |
| SizeOrder.InsertionSortPermutes | src/cache/memory-cache.service.ts:29 | the result is a permutation of the input |
| SizeOrder.InsertionSortMembers | src/cache/memory-cache.service.ts:29 | the result has the same members |
| SizeOrder.InsertionSortKeepsDistinctIds | src/cache/memory-cache.service.ts:29 | distinct ids stay distinct |
| SizeOrder.InsertionSortStable | src/cache/memory-cache.service.ts:29 | bears of equal size keep their relative order |
| SizeOrder.SortedStableUnique | src/cache/memory-cache.service.ts:29 | two sorted sequences with the same bears of each size, in the same order, are equal |
| SizeOrder.AnyStableSortIsInsertionSort | src/cache/memory-cache.service.ts:29 | any stable sort by size gives `InsertionSort` of the input |
| CacheIndex.MapOfEntries | src/cache/memory-cache.service.ts:30-34 | the map's keys are the ids of the bears, and each entry is a bear of the sequence with that id |
| CacheIndex.MapOfDistinct | src/cache/memory-cache.service.ts:30-34 | with distinct ids every bear is the entry under its id |
| CacheIndex.AddLinksEntries | src/cache/memory-cache.service.ts:40-46 | the inner loop adds the bear to the set of each linked colour and changes nothing else |
| CacheIndex.IndexOfEntries | src/cache/memory-cache.service.ts:36-48 | a colour is a key iff some loaded bear links to it; an id is in its set iff that bear links to it |
| CacheIndex.IndexOfUnloaded | src/cache/memory-cache.service.ts:39 | bears loaded without links leave the index empty |
| CacheIndex.UnionOfMembers | src/cache/memory-cache.service.ts:74-80 | the union holds an id iff some given colour's set holds it |
| CacheIndex.InRangeMembers | src/cache/memory-cache.service.ts:97 | the size filter keeps exactly the bears in range |
| Cache.MemoryCache.constructor | src/cache/memory-cache.service.ts:12-15 | the empty structures describe the empty store |
| Cache.MemoryCache.RebuildCache | src/cache/memory-cache.service.ts:27-51 | afterwards every structure is what a rebuild derives from the current tables, and one more rebuild is counted |
| Cache.BuildBearMap | src/cache/memory-cache.service.ts:30-34 | the map loop computes `MapOf` of the sorted bears |
| Cache.BuildColorIndex | src/cache/memory-cache.service.ts:36-48 | the index loops compute `IndexOf` of the sorted bears, skipping absent or empty `bearColors` |
| Cache.MemoryCache.SortedCache | src/cache/memory-cache.service.ts:28-29 | the array is sorted, a stable permutation of the loaded rows, and lists each stored bear of size 0..9999 once with its links |
| Cache.MemoryCache.CachedBearsAreStoredBears | src/cache/memory-cache.service.ts:28-34 | the map's keys are exactly the stored bears of size 0..9999; every entry carries its key as id, is the stored row, and is in the array |
| Cache.MemoryCache.ColorIndexKeysMatchStore | src/cache/memory-cache.service.ts:36-48 | the index's colours are exactly those some cached bear links to |
| Cache.MemoryCache.ColorIndexMatchesStore | src/cache/memory-cache.service.ts:36-48 | a bear is filed under a colour iff it is cached and linked to it, so every filed id is a key of the map |
| Cache.MemoryCache.BinarySearchStart | src/cache/memory-cache.service.ts:108-122 | the lower bound: every bear before it is smaller than the target, every bear from it on is at least the target |
| Cache.MemoryCache.GetBearBySizeInRange | src/cache/memory-cache.service.ts:53-67 | exactly the cached bears with start <= size <= end, in array order; nothing when start > end |
| Cache.MemoryCache.RangeQueryMatchesStore | src/cache/memory-cache.service.ts:53-67 | the range answer holds exactly the stored bears in both the range and 0..9999, as stored |
| Cache.MemoryCache.GetBearsByColors | src/cache/memory-cache.service.ts:69-86 | no colour: the whole sorted array; otherwise each cached bear filed under one of the colours, once, taken from the map |
| Cache.MemoryCache.ColorQueryMatchesStore | src/cache/memory-cache.service.ts:74-85 | an id is selected iff the bear is cached and linked in the store to one of the colours |
| Cache.MemoryCache.GetBearsByColorsAndSize | src/cache/memory-cache.service.ts:88-100 | the colour query's answer filtered to start <= size <= end; the whole range query when no colour is given |
| Cache.MemoryCache.GetAllColors | src/cache/memory-cache.service.ts:102-104 | every colour of the tables last read, once each |
| Cache.MemoryCache.GetStats | src/cache/memory-cache.service.ts:124-130 | on a valid cache: the number of stored bears of size 0..9999, the number of stored colours, and the number of colours linked to a cached bear |
| Cache.MemoryCache.StatsMatchStore | src/cache/memory-cache.service.ts:124-130 | on a valid cache, the three counted structures hold as many entries as there are stored bears of size 0..9999, the stored colours, and the colours linked to a cached bear |
| Cache.SortedListing | src/cache/memory-cache.service.ts:28-29 | sorting a listing of the loaded rows gives a listing of the same bears |
| Cache.ListingCount | src/cache/memory-cache.service.ts:126 | a listing has one bear per stored bear in range |
| Cache.ColorListingCount | src/cache/memory-cache.service.ts:127 | a colour listing has one entry per stored colour |
| Cache.IndexKeysMatchLinks | src/cache/memory-cache.service.ts:36-48 | the index's keys are the colours linked to the loaded bears |
| Cache.IndexSetsMatchLinks | src/cache/memory-cache.service.ts:36-48 | an id is in a colour's set iff it is a loaded bear linked to that colour |
| Cache.UnionMatchesLinks | src/cache/memory-cache.service.ts:74-80 | the union holds exactly the loaded bears linked to one of the colours |
| Cache.RangeMatchesListing | src/cache/memory-cache.service.ts:58-64 | the range filter over a listing selects exactly the stored bears in both ranges |
| Cache.InRangeStopsAt | src/cache/memory-cache.service.ts:60 | in a sorted array nothing from the first bear above `end` on is in range, so the `break` loses nothing |
| Cache.SelectionInRange | src/cache/memory-cache.service.ts:97 | filtering a selection by size selects the size-filtered ids |
| Cache.AsWrittenIndexIsEmpty | src/cache/memory-cache.service.ts:38-48 | built from rows without links the index is empty |
| Cache.AsWrittenMissesLinkedBear | src/cache/memory-cache.service.ts:28 | a stored bear of size 5 linked to colour 1 is loaded, yet the as-written index answers `getBearsByColors([1])` with nothing |
| Queue.Decimal | src/queue/local-queue.service.ts:29 | the numeral is non-empty and made of decimal digits |
| Queue.DecimalInjective | src/queue/local-queue.service.ts:29 | different numbers have different numerals |
| Queue.JobId | src/queue/local-queue.service.ts:29 | an id is `job-` followed by a non-empty decimal numeral |
| Queue.JobIdInjective | src/queue/local-queue.service.ts:29 | two job ids are equal iff their numbers are |
| Queue.NextIdNeverIssued | src/queue/local-queue.service.ts:24-29 | the id the next enqueue will use differs from every id issued before |
| Queue.LocalQueue.constructor | src/queue/local-queue.service.ts:23-24 | an empty queue and a zero counter |
| Queue.LocalQueue.Enqueue | src/queue/local-queue.service.ts:27-39 | the counter goes up by one; the job carries `job-<counter>`, the given type and data; it is appended at the tail and returned |
| Queue.LocalQueue.Dequeue | src/queue/local-queue.service.ts:42-48 | the head is removed and returned; on an empty queue nothing is returned and nothing changes; the counter never changes |
| Queue.LocalQueue.Size | src/queue/local-queue.service.ts:54-56 | the number of pending jobs |
| Queue.LocalQueue.IsEmpty | src/queue/local-queue.service.ts:50-52 | true iff the size is zero |
| Queue.LocalQueue.PendingIdsUnique | src/queue/local-queue.service.ts:24-35 | pending jobs have pairwise distinct ids, none equal to the next id |
| Processor.Dispatch | src/queue/queue-processor.service.ts:59-95 | a job fails iff its type is unknown or its one store operation throws |
| Processor.DispatchKeepsConsistent | src/queue/queue-processor.service.ts:59-95 | every job, completed or failed, leaves a consistent store consistent; for `UPDATE_BEAR_COLORS` this rests on the assumption `EnvironmentConsistent` that the unmodelled operation leaves a consistent store when it returns |
| Processor.MissingBearStillCompletes | src/queue/queue-processor.service.ts:68-85 | renaming, resizing or deleting a missing bear changes nothing and still completes |
| Processor.HexIgnored | src/queue/queue-processor.service.ts:87-88 | the `hex` of a job has no effect |
| Processor.TicksAreFifo | src/queue/queue-processor.service.ts:36-42 | n ticks with n jobs pending consume the first n jobs and apply them to the store in enqueue order |
| Processor.IdleTicks | src/queue/queue-processor.service.ts:24-31 | with the flag set or the queue empty, ticks change nothing |
| Processor.TicksKeepConsistent | src/queue/queue-processor.service.ts:22-51 | any run of ticks keeps the store consistent |
| Processor.RunJob | src/queue/queue-processor.service.ts:59-95 | the switch leaves the tables as `After` says and reports a throw iff `Dispatch` fails |
| Processor.QueueProcessor.constructor | src/queue/queue-processor.service.ts:11-18 | the flag starts clear and the services are the given ones |
| Processor.QueueProcessor.ProcessJob | src/queue/queue-processor.service.ts:53-106 | the store follows `After`; the cache is rebuilt iff the operation did not throw, and untouched otherwise; nothing escapes |
| Processor.QueueProcessor.ProcessQueue | src/queue/queue-processor.service.ts:22-51 | one tick as `Tick` says: nothing when busy or empty, otherwise the head job is dequeued and applied and the flag is clear again; the cache is rebuilt iff the job completed |

## Left out

- Controllers, services, DTOs, validation and module wiring: the HTTP surface. It calls the repositories directly and reaches neither the cache nor the queue.
- The join queries `getBearsWithColors`, `findBearByColors` and `findBearByColorsAndSizes` (src/persistence/repositories/bear.repository.ts:139-174): SQL reads the core does not use.
- `waitForProcessing` and the per-second `@Cron` schedule: timers. Ticks are explicit calls to `ProcessQueue`.
- Asynchrony and concurrency: every `await` is an ordinary call, and ticks and queries run one at a time.
- Logging, `createdAt`, `Date.now()` and durations: they do not affect behaviour.
- `toLowerCase` is modelled on ASCII letters only; other Unicode case mappings are not.
- The `id` column of `bear_colors`: links are a set of (bear, colour) pairs. No operation creates a duplicate pair. `addColorToBear` checks for the pair first, and `addBear` links a fresh bear.
- `.orIgnore()` on the inserts: no unique constraint exists for it to act on, so it never ignores a row here.
- Ids are `nat`. SERIAL ids are positive, and a negative id passed to an update or delete simply matches no row.
- The migration creates no foreign keys. The model assumes the entity-declared ON DELETE CASCADE on both foreign keys of `bear_colors`, which the code's comments rely on.
- Failures of the store are one boolean per job in `Processor.Environment`. Which statement inside a transaction failed is not modelled. On a failure the tables are rolled back completely, and the model also leaves `nextBearId` and `nextColorId` unchanged. PostgreSQL does not roll back SERIAL sequences, so in the source a failed `addBear` still uses up ids and later ids skip them.
- `updateBearColors` is not defined by the repository. Its effect comes from `Processor.Environment`: a new consistent table state, or a throw. `bearRepository.updateBearColors` (src/queue/queue-processor.service.ts:77) is not a function, so as written the call always throws a `TypeError`. That is the environment's `None` case.
- Job payloads are untyped in the source. `JobData` fixes their fields, and a type tag outside the enumeration is `Unknown`.
- Processor.QueueProcessor.ProcessJob: a throw from the cache rebuild itself, after the store call succeeded, is not modelled. The rebuild always completes.
- Cache.MemoryCache.GetBearsByColors: the result order, `Set` insertion order in the source, is not stated. The contract fixes only which bears are returned, once each.
- Cache.MemoryCache.GetBearsByColors: with no colour the source returns the cache's own array object. The model returns its value, so aliasing is not modelled.
- Cache.MemoryCache.GetAllColors: the source returns the cache's own `allColors` array (src/cache/memory-cache.service.ts:103), and `sortedBears` and `bearMap` share the same bear objects. The model works on values, so this aliasing, and a caller mutating what it was given, are not modelled.
- `bear.size` is a 32-bit `integer` column (src/persistence/migrations/1720703879258-Bear.ts:7). The database rejects sizes outside that range, so the source's `addBear` and `updateBearSize` throw there. The model's unbounded `int` completes them.
- The query parameters `start`, `end` and `colorIds` are JavaScript numbers in the source (src/cache/memory-cache.service.ts:53,69,88), which admit fractions and NaN. The model takes `int`.
- BearRepository.AddBear: a `colors` argument that is `null` or `undefined` is not modelled. The list is always a sequence; the empty one takes the same path.
- `onModuleInit` only calls `rebuildCache`. It is `Cache.MemoryCache.RebuildCache` applied to the store of the moment.

## Findings

| source | as written | input that shows it | evidently intended | confidence | as-written member | corrected member |
|---|---|---|---|---|---|---|
| src/cache/memory-cache.service.ts:28 | the rebuild loads bears with `findBearBySizeInRange`, a `find` without `relations`, so `bear.bearColors` is undefined on every row and the colour index is never filled | a store with bear 1 (size 5) linked to colour 1: after a rebuild `getBearsByColors([1])` returns `[]` | the rows carry their `bearColors`, so the index files each cached bear under its colours | high; not executed | Cache.AsWrittenMissesLinkedBear | BearRepository.FindBearBySizeInRangeWithColors |
| src/persistence/repositories/bear.repository.ts:130-132 | `manager.delete(BearColors, { where: {...} })` passes find options where delete expects column criteria, so the ORM looks for a column named `where` and throws | any existing link, e.g. `removeBearColor(1, 1)` with link (1, 1) stored | the criteria `{ bear_id, color_id }` passed directly, removing the link and answering true | medium; not executed | BearRepository.RemoveBearColorAsWrittenThrows | BearRepository.RemoveBearColor |

The cache's `RebuildCache` uses the corrected loader, and its lemmas are proved about the corrected index. `Cache.AsWrittenIndexIsEmpty` and `BearRepository.FindBearBySizeInRange` model the loader as written. `BearRepository.RemoveBearColorAsWritten` models the removal as written.
