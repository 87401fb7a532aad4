# Egg incubator task of NecroBot, modelled in Dafny

NecroBot is a bot for Pokémon GO. `UseIncubatorsTask.Execute` runs
periodically and fills the player's egg incubators. One run does the
following:

- It stops with an `OperationCanceledException` when cancellation is requested, and returns at once when there are no player stats.
- It keeps the incubators that are unlimited or still have uses, with the unlimited ones first.
- It queues the unused eggs, shortest first.
- It sends a hatch event for each egg remembered from the previous run that is now a pokemon.
- It walks the incubators in that order:
  - An occupied incubator is mirrored into the new usage list.
  - An idle incubator takes the head of the queue (the shortest egg) or its tail (the longest).
  - An idle incubator skips when the 10 km / level 20 gate or the minimum-km setting forbids the egg.
  - Each assignment calls the game's `UseItemEggIncubator`, removes the egg from the queue, and records and announces it.
- It writes the new usage list to `incubators.json`, but only if the list differs from the remembered one as an ordered sequence.

The model has these modules:

- `Sequences`: the .NET collection operations the incubator task uses, as functions on sequences. `Where` is `Filter`, `FirstOrDefault` is `FirstWhere`, the stable `OrderBy` is the insertion sort `SortBy`, and `List<T>.Remove` is `Remove`.
- `Inventory`: the incubator, pokemon/egg, player-stats, usage and event records.
- `Selection`: the incubator list and the egg queue that feed the loop, and the "only 10 km eggs" flag.
- `UsageStore`: `IncubatorUsage.Equals`, the order-sensitive comparison, the usage file as a value, and the save decision.
- `Hatching`: hatch detection. The function `HatchEvents` is the specification; the method `DetectHatched` is the loop.
- `Allocation`: the loop body.
  - Pure `Step` and `Allocate` are the specification.
  - `VisitIncubator` is the body as the source writes it, with a local queue, record list and event list updated in place.
  - `AllocateEggs` is the `foreach` loop, proved equal to `Allocate` over the incubators it gets through.
- `AllocationFacts`: what the loop guarantees over any list of incubators.
- `UseIncubatorsTask`: one whole run. `Run` is the specification; the method `Execute` is proved to compute it.
- `RunFacts`: the loop facts lifted to the inputs of a run.
- `Scenarios`: small concrete runs, worked out in full.

How the outside world appears in the model:

- The inventory queries arrive as a `Snapshot`.
- `UseItemEggIncubator` is a function parameter `commit`. It maps an incubator id and an egg id to the new target km.
- The usage file is an `Option` value: `None` means no file. The save decision returns the list to write, if any.
- The cancellation token is `cancelAt`, the index of the first check that sees it set:
  - check 0 is on entry;
  - check i + 1 comes just before the (i + 1)-th incubator.

## Model

| member | source | states |
|---|---|---|
| Sequences.Filter | PoGo.NecroBot.Logic/Tasks/UseIncubatorsTask.cs:37-45 | `Where` never yields more elements than it is given |
| Sequences.FilterMembers | PoGo.NecroBot.Logic/Tasks/UseIncubatorsTask.cs:37-45 | an element survives `Where` exactly when it is in the input and satisfies the predicate |
| Sequences.FilterMultiset | PoGo.NecroBot.Logic/Tasks/UseIncubatorsTask.cs:37-45 | `Where` keeps every copy of a matching element and no copy of any other |
| Sequences.FilterAppend | PoGo.NecroBot.Logic/Tasks/UseIncubatorsTask.cs:37-45 | filtering a concatenation is concatenating the filtered parts |
| Sequences.FirstWhere | PoGo.NecroBot.Logic/Tasks/UseIncubatorsTask.cs:73-74 | `FirstOrDefault(p)` is absent exactly when no element satisfies `p`; when present it is an element that does |
| Sequences.FirstWhereIsFirst | PoGo.NecroBot.Logic/Tasks/UseIncubatorsTask.cs:55 | `FirstOrDefault(p)` returns the element at the first index satisfying `p` |
| Sequences.Remove | PoGo.NecroBot.Logic/Tasks/UseIncubatorsTask.cs:105 | `List.Remove` takes away one copy of the egg when it is present and changes nothing otherwise; which copy, and the order of the rest, is stated by `RemoveDeletesFirst` |
| Sequences.RemoveDeletesFirst | PoGo.NecroBot.Logic/Tasks/UseIncubatorsTask.cs:105 | `List.Remove` deletes the first element equal to the egg and keeps every other element in its order |
| Sequences.RemoveMembers | PoGo.NecroBot.Logic/Tasks/UseIncubatorsTask.cs:105 | removal brings in no new element |
| Sequences.RemoveKeepsSorted | PoGo.NecroBot.Logic/Tasks/UseIncubatorsTask.cs:105 | removing an egg from a sorted queue leaves it sorted |
| Sequences.SortBy | PoGo.NecroBot.Logic/Tasks/UseIncubatorsTask.cs:44 | `OrderBy` is a permutation of its input |
| Sequences.SortByMembers | PoGo.NecroBot.Logic/Tasks/UseIncubatorsTask.cs:44 | sorting neither adds nor drops an element |
| Sequences.SortBySorted | PoGo.NecroBot.Logic/Tasks/UseIncubatorsTask.cs:44 | the result of `OrderBy` is non-decreasing in the key |
| Sequences.SortByStable | PoGo.NecroBot.Logic/Tasks/UseIncubatorsTask.cs:44 | `OrderBy` is stable: elements with the same key keep their relative order |
| Sequences.InsertMultiset | PoGo.NecroBot.Logic/Tasks/UseIncubatorsTask.cs:44 | one insertion step of the sort adds exactly the inserted element |
| Sequences.InsertKeepsSorted | PoGo.NecroBot.Logic/Tasks/UseIncubatorsTask.cs:44 | inserting into a sorted sequence keeps it sorted |
| Sequences.InsertStable | PoGo.NecroBot.Logic/Tasks/UseIncubatorsTask.cs:44 | the inserted element goes before every element with the same key; those come after it in the input |
| Sequences.SubsequenceDistinct | PoGo.NecroBot.Logic/Tasks/UseIncubatorsTask.cs:76-134 | a subsequence of a duplicate-free list is duplicate-free |
| Selection.OrderedIncubators | PoGo.NecroBot.Logic/Tasks/UseIncubatorsTask.cs:37-40 | the incubators the loop tries: no more than the inventory lists, each one listed and unlimited or with uses left; `OrderedIncubatorsMembers`, `OrderedIncubatorsPartition`, `OrderedIncubatorsUnlimitedFirst` and `OrderedIncubatorsStable` give its contents and order |
| Selection.OrderedIncubatorsMembers | PoGo.NecroBot.Logic/Tasks/UseIncubatorsTask.cs:37-40 | the incubators tried are exactly those of the inventory that are unlimited or have uses left, each as often as listed |
| Selection.OrderedIncubatorsUnlimitedFirst | PoGo.NecroBot.Logic/Tasks/UseIncubatorsTask.cs:39 | no limited incubator is tried before an unlimited one |
| Selection.OrderedIncubatorsStable | PoGo.NecroBot.Logic/Tasks/UseIncubatorsTask.cs:39 | unlimited incubators keep their inventory order among themselves, and so do limited ones |
| Selection.OrderedIncubatorsPartition | PoGo.NecroBot.Logic/Tasks/UseIncubatorsTask.cs:37-40 | the order tried is the eligible unlimited incubators followed by the eligible limited ones, each group in inventory order |
| Selection.RankSortPartition | PoGo.NecroBot.Logic/Tasks/UseIncubatorsTask.cs:39 | `OrderByDescending(isUnlimited)` is the stable partition into unlimited, then limited |
| Selection.UnusedEggQueue | PoGo.NecroBot.Logic/Tasks/UseIncubatorsTask.cs:42-45 | the egg queue: no longer than the egg list, every egg in it listed and unused; `UnusedEggQueueMembers`, `UnusedEggQueueSorted` and `UnusedEggQueueStable` give its contents and order |
| Selection.UnusedEggQueueMembers | PoGo.NecroBot.Logic/Tasks/UseIncubatorsTask.cs:42-45 | the queue holds exactly the eggs with no incubator id, each as often as in the inventory |
| Selection.UnusedEggQueueSorted | PoGo.NecroBot.Logic/Tasks/UseIncubatorsTask.cs:44 | the queue is ascending by the km the egg still needs |
| Selection.UnusedEggQueueStable | PoGo.NecroBot.Logic/Tasks/UseIncubatorsTask.cs:44 | eggs needing the same km keep their inventory order |
| Selection.UnusedEggQueueDistinctIds | PoGo.NecroBot.Logic/Tasks/UseIncubatorsTask.cs:42-45 | eggs with unique ids give a queue with unique ids |
| Selection.OnlyTenKmEggs | PoGo.NecroBot.Logic/Tasks/UseIncubatorsTask.cs:71-74 | the flag is set exactly when no unused egg has a target below 10 km |
| UsageStore.UsageEquals | PoGo.NecroBot.Logic/Tasks/UseIncubatorsTask.cs:162-165 | `IncubatorUsage.Equals` as a predicate on records; `UsageEqualsIsEquality` states what it means |
| UsageStore.UsageEqualsIsEquality | PoGo.NecroBot.Logic/Tasks/UseIncubatorsTask.cs:162-165 | `IncubatorUsage.Equals` holds exactly when both the incubator id and the pokemon id agree |
| UsageStore.SequenceEqual | PoGo.NecroBot.Logic/Tasks/UseIncubatorsTask.cs:136 | `SequenceEqual` under `IncubatorUsage.Equals` holds exactly when the two lists are equal as ordered sequences |
| UsageStore.Load | PoGo.NecroBot.Logic/Tasks/UseIncubatorsTask.cs:140-148 | a missing usage file reads as the empty list |
| UsageStore.Save | PoGo.NecroBot.Logic/Tasks/UseIncubatorsTask.cs:150-155 | reading back a saved file gives the list that was saved |
| UsageStore.SaveDecision | PoGo.NecroBot.Logic/Tasks/UseIncubatorsTask.cs:136-137 | the new list is written exactly when it differs, in order or content, from the remembered one, and then it is the new list that is written |
| UsageStore.StoreHoldsNewRecords | PoGo.NecroBot.Logic/Tasks/UseIncubatorsTask.cs:136-137 | after the decision the store holds the new list, and an unchanged list leaves the file as it was |
| UsageStore.ReorderedUsagesAreWritten | PoGo.NecroBot.Logic/Tasks/UseIncubatorsTask.cs:136 | the same two usages in the other order count as a change and are written |
| Hatching.FirstHatched | PoGo.NecroBot.Logic/Tasks/UseIncubatorsTask.cs:55 | the lookup finds a pokemon exactly when one that is not an egg has the remembered id, and what it finds is such a pokemon |
| Hatching.HatchEvents | PoGo.NecroBot.Logic/Tasks/UseIncubatorsTask.cs:53-67 | the hatch events of the remembered list: at most one per remembered usage, each an `EggHatched` event; `HatchEventsMatchHatchedUsages` and `HatchEventsSound` say which |
| Hatching.HatchEventFor | PoGo.NecroBot.Logic/Tasks/UseIncubatorsTask.cs:55-66 | a remembered usage gives one hatch event exactly when its egg is now a non-egg pokemon, carrying that pokemon's id, species and CP, and none otherwise |
| Hatching.DetectHatched | PoGo.NecroBot.Logic/Tasks/UseIncubatorsTask.cs:53-67 | the hatch loop sends exactly the hatch events of the remembered list, in list order |
| Hatching.HatchEventsMatchHatchedUsages | PoGo.NecroBot.Logic/Tasks/UseIncubatorsTask.cs:53-67 | one hatch event per remembered usage whose egg hatched, in remembered order, about that usage's egg |
| Hatching.HatchEventsSound | PoGo.NecroBot.Logic/Tasks/UseIncubatorsTask.cs:53-67 | every hatch event is about a remembered egg that is now an existing non-egg pokemon |
| Allocation.Candidate | PoGo.NecroBot.Logic/Tasks/UseIncubatorsTask.cs:84-89 | the egg offered to an idle incubator: none exactly when the queue is empty, otherwise an egg of the queue; by definition it is the head for an unlimited incubator among several and the tail otherwise, and `CommitPicksEnd` proves that it is the shortest or longest egg of a sorted queue |
| Allocation.TenKmGateAllows | PoGo.NecroBot.Logic/Tasks/UseIncubatorsTask.cs:91-96 | the 10 km / level 20 rule; `TenKmEggsWaitForLevel` states what it holds back |
| Allocation.MinKmAllows | PoGo.NecroBot.Logic/Tasks/UseIncubatorsTask.cs:98-101 | the minimum-km rule, which binds limited incubators only; `LimitedIncubatorsSkipShortEggs` states what it holds back |
| Allocation.Step | PoGo.NecroBot.Logic/Tasks/UseIncubatorsTask.cs:80-133 | one incubator: an occupied one only mirrors its egg; an idle one commits its head-or-tail candidate exactly when the queue is not empty and both the 10 km gate and the minimum-km rule allow it, then takes the egg off the queue and adds one record and one status event for it; a skip changes nothing |
| Allocation.Allocate | PoGo.NecroBot.Logic/Tasks/UseIncubatorsTask.cs:76-134 | the loop over a list of incubators as repeated `Step`: one record and one status event per incubator at most, in lockstep; the lemmas of `AllocationFacts` give the rest |
| Allocation.AssignedEggs | PoGo.NecroBot.Logic/Tasks/UseIncubatorsTask.cs:104-105 | the eggs committed, one per commit, in commit order |
| Allocation.CommittedIncubators | PoGo.NecroBot.Logic/Tasks/UseIncubatorsTask.cs:104 | the incubators committed, one per commit, in commit order |
| Allocation.VisitIncubator | PoGo.NecroBot.Logic/Tasks/UseIncubatorsTask.cs:78-133 | the loop body, with its queue, record list and event list updated in place, computes `Step` |
| Allocation.AllocateEggs | PoGo.NecroBot.Logic/Tasks/UseIncubatorsTask.cs:76-134 | the loop stops exactly when the token is seen before an incubator, and its state is the loop specification applied to the incubators it got through |
| AllocationFacts.AllocateQueueAccounting | PoGo.NecroBot.Logic/Tasks/UseIncubatorsTask.cs:104-105 | the queue left over is the starting queue minus exactly the committed eggs |
| AllocationFacts.AllocateKeepsQueueSorted | PoGo.NecroBot.Logic/Tasks/UseIncubatorsTask.cs:105 | the queue stays sorted through every removal |
| AllocationFacts.RemoveDistinctEgg | PoGo.NecroBot.Logic/Tasks/UseIncubatorsTask.cs:105 | removing an egg from a queue with unique ids removes its id |
| AllocationFacts.CommitKeepsEggsOnce | PoGo.NecroBot.Logic/Tasks/UseIncubatorsTask.cs:104-105 | committing a queued egg and removing it keeps every egg used at most once |
| AllocationFacts.AllocateAssignsEachEggOnce | PoGo.NecroBot.Logic/Tasks/UseIncubatorsTask.cs:104-105 | with unique egg ids no egg is committed twice, and no committed egg is still queued |
| AllocationFacts.AllocateRespectsRules | PoGo.NecroBot.Logic/Tasks/UseIncubatorsTask.cs:80-104 | every commit is for an idle incubator of the list, with an egg of the starting queue that both rules allow |
| AllocationFacts.TenKmEggsWaitForLevel | PoGo.NecroBot.Logic/Tasks/UseIncubatorsTask.cs:91-97 | below level 20, with some egg shorter than 10 km, no 10 km egg is committed |
| AllocationFacts.LimitedIncubatorsSkipShortEggs | PoGo.NecroBot.Logic/Tasks/UseIncubatorsTask.cs:99-102 | a limited incubator never receives an egg below the minimum-km setting |
| AllocationFacts.CommitPicksEnd | PoGo.NecroBot.Logic/Tasks/UseIncubatorsTask.cs:82-86 | the candidate of a sorted queue is no longer (head) or no shorter (tail) than every egg left |
| AllocationFacts.AllocatePicksShortestOrLongest | PoGo.NecroBot.Logic/Tasks/UseIncubatorsTask.cs:82-86 | an incubator that prefers short eggs got one no longer than any egg still queued, every other one got one no shorter |
| AllocationFacts.AllocateRecordsMatchEvents | PoGo.NecroBot.Logic/Tasks/UseIncubatorsTask.cs:107-132 | records and status events go in lockstep with the same incubator and egg ids, at most one per incubator and at least one per commit |
| AllocationFacts.AllocateRecordsInIncubatorOrder | PoGo.NecroBot.Logic/Tasks/UseIncubatorsTask.cs:76-133 | the records' incubator ids are the incubators' ids with some left out, in order |
| AllocationFacts.AllocateCommitsInIncubatorOrder | PoGo.NecroBot.Logic/Tasks/UseIncubatorsTask.cs:76-104 | the committed incubators are the incubators with some left out, in order |
| AllocationFacts.OneCommitPerIncubator | PoGo.NecroBot.Logic/Tasks/UseIncubatorsTask.cs:76-104 | with unique incubator ids, no incubator is committed twice |
| AllocationFacts.OneRecordPerIncubator | PoGo.NecroBot.Logic/Tasks/UseIncubatorsTask.cs:107-124 | with unique incubator ids, no incubator id appears twice among the records |
| AllocationFacts.AllocateRecordsCoverIncubators | PoGo.NecroBot.Logic/Tasks/UseIncubatorsTask.cs:107-124 | every occupied incubator is recorded with its egg, and every commit is recorded |
| AllocationFacts.StepExtends | PoGo.NecroBot.Logic/Tasks/UseIncubatorsTask.cs:80-133 | one incubator only appends to the commits, records and events |
| AllocationFacts.AllocatePrefix | PoGo.NecroBot.Logic/Tasks/UseIncubatorsTask.cs:76-78 | stopping the loop early only cuts its effects short |
| UseIncubatorsTask.RunContext | PoGo.NecroBot.Logic/Tasks/UseIncubatorsTask.cs:31-35 | the loop reads the first stats entry's level and km walked, the minimum-km setting, and the flag that no unused egg is below 10 km |
| UseIncubatorsTask.Processed | PoGo.NecroBot.Logic/Tasks/UseIncubatorsTask.cs:76-78 | the loop gets through all incubators, unless the token is seen at a check before the last one is done, in which case it gets through exactly the `cancelAt - 1` incubators before that check |
| UseIncubatorsTask.RunWithStats | PoGo.NecroBot.Logic/Tasks/UseIncubatorsTask.cs:35-137 | once stats are found, the run is cancelled exactly when the token is seen before the last incubator is done; only a completed run saves, and only a list that differs |
| UseIncubatorsTask.Run | PoGo.NecroBot.Logic/Tasks/UseIncubatorsTask.cs:24-138 | cancellation on entry does nothing; no player stats means no effect; a run is cut short exactly when the token is seen before the last incubator is done; the file is written exactly when a completed run built a list that differs from the remembered one, and gets that list |
| UseIncubatorsTask.ExecuteWithStats | PoGo.NecroBot.Logic/Tasks/UseIncubatorsTask.cs:35-137 | the statements after the stats check compute `RunWithStats` |
| UseIncubatorsTask.Execute | PoGo.NecroBot.Logic/Tasks/UseIncubatorsTask.cs:24-138 | the incubator task computes `Run` |
| RunFacts.RunRespectsRules | PoGo.NecroBot.Logic/Tasks/UseIncubatorsTask.cs:37-104 | every egg put in goes into an eligible idle incubator of the inventory, is an unused egg of the inventory, reaches the minimum km in a limited incubator, and is a 10 km egg below level 20 only when every unused egg is one |
| RunFacts.RunCommitsUnusedEggs | PoGo.NecroBot.Logic/Tasks/UseIncubatorsTask.cs:42-45 | a run commits no more copies of an egg than the inventory lists, and none of an egg already incubating |
| RunFacts.RunPicksShortestOrLongest | PoGo.NecroBot.Logic/Tasks/UseIncubatorsTask.cs:82-86 | in a run, an unlimited incubator among several got an egg no longer than any unused egg left over, and every other incubator one no shorter |
| RunFacts.RunCommitsEachEggOnce | PoGo.NecroBot.Logic/Tasks/UseIncubatorsTask.cs:104-105 | with unique egg ids, no egg is put into two incubators in a run |
| RunFacts.RunEvents | PoGo.NecroBot.Logic/Tasks/UseIncubatorsTask.cs:53-132 | the events are the hatch events followed by one status event per new record, in lockstep with the records; at least one record per commit and at most one per eligible incubator |
| RunFacts.RunRecordsInOrder | PoGo.NecroBot.Logic/Tasks/UseIncubatorsTask.cs:76-133 | records and commits follow the incubator order, each incubator at most once in that order |
| RunFacts.RunOneRecordPerIncubator | PoGo.NecroBot.Logic/Tasks/UseIncubatorsTask.cs:76-133 | with unique ids among the eligible incubators, the new list names each incubator at most once and no incubator is committed twice |
| RunFacts.RunRecordsCover | PoGo.NecroBot.Logic/Tasks/UseIncubatorsTask.cs:104-124 | every commit is in the new list; a completed run also lists every eligible occupied incubator with its egg |
| RunFacts.CancelledRunIsPrefix | PoGo.NecroBot.Logic/Tasks/UseIncubatorsTask.cs:26-78 | a run cancelled earlier did exactly the first part of what a run cancelled later (or never) does |
| RunFacts.RunStoreHoldsRecords | PoGo.NecroBot.Logic/Tasks/UseIncubatorsTask.cs:136-137 | after a completed run the usage file holds the new list, and it is untouched when nothing changed |
| RunFacts.RunHatchEvents | PoGo.NecroBot.Logic/Tasks/UseIncubatorsTask.cs:53-67 | a run's first events are one hatch event per remembered usage whose egg hatched, in stored order |
| Scenarios.UnlimitedTakesShortestLimitedTakesLongest | PoGo.NecroBot.Logic/Tasks/UseIncubatorsTask.cs:37-137 | inventory [limited, unlimited] with a 10 km and a 2 km egg: the unlimited incubator is tried first and takes the 2 km egg, the limited one takes the 10 km egg, and the new list is saved |
| Scenarios.CancelledAfterFirstIncubator | PoGo.NecroBot.Logic/Tasks/UseIncubatorsTask.cs:78 | the same run cancelled before the second incubator has made only the first commit and saves nothing |
| Scenarios.LoneUnlimitedTakesLongest | PoGo.NecroBot.Logic/Tasks/UseIncubatorsTask.cs:82-86 | a lone unlimited incubator takes the longest egg |
| Scenarios.TenKmEggWaits | PoGo.NecroBot.Logic/Tasks/UseIncubatorsTask.cs:91-97 | at level 5 the 10 km egg at the tail is held back while a 2 km egg exists |
| Scenarios.OnlyTenKmEggsGoIn | PoGo.NecroBot.Logic/Tasks/UseIncubatorsTask.cs:71-97 | at level 5 a 10 km egg goes in when it is the only unused egg |
| Scenarios.MinKmBindsLimited | PoGo.NecroBot.Logic/Tasks/UseIncubatorsTask.cs:99-102 | with the setting at 5 km a limited incubator leaves a 2 km egg alone |
| Scenarios.MinKmSparesUnlimited | PoGo.NecroBot.Logic/Tasks/UseIncubatorsTask.cs:99-102 | with the setting at 5 km an unlimited incubator still takes a 2 km egg |
| Scenarios.RememberedEggHatches | PoGo.NecroBot.Logic/Tasks/UseIncubatorsTask.cs:53-67 | a remembered egg that is now a pokemon gives one hatch event with that pokemon's id, species and CP, and the emptied list is saved |

## Left out

- Inventory refresh and the queries `GetPlayerStats`, `GetEggIncubators`, `GetEggs` and `GetPokemons` are asynchronous I/O. Their results are the fields of `Snapshot`.
- `UseItemEggIncubator` is a network call. It is the parameter `commit`. Its failure, retries and any response other than the new target km are not modelled.
- JSON reading and writing, `Directory.CreateDirectory` and path handling are not modelled. The file is its list value. A `null` entry inside a stored list is not modelled, so the `other != null` test in `Equals` has no counterpart. A malformed file, which makes the source throw, is not modelled either, nor is a file holding the JSON literal `null`: it deserializes to a null list, and the `foreach` over it throws a `NullReferenceException`; an `Option` list value has no such case.
- `EventDispatcher.Send` is an append to the run's event list. `Logger.Write` and the translation of the "only 10 km eggs" message have no effect in the model.
- The hatch event's level, maximum CP and perfection are not modelled. They come from `PokemonInfo` and `Math.Round`, which are floating-point code outside this model. The event keeps the id, species and CP.
- Km values are exact reals, not floating-point doubles. The comparisons `== 10`, `< 10` and `< UseEggIncubatorMinKm`, and the subtractions, are therefore exact.
- `async`/`await` and concurrency are not modelled. The cancellation token is the index `cancelAt` of the first check that sees it. Its `OperationCanceledException` is the `Cancelled` exit.
- `IncubatorUsage.PokemonId` is a 64-bit unsigned value in the source, and the ids of `PokemonData` are too. Both are modelled as unbounded naturals; no operation of the incubator task does arithmetic on them.
- RunOneRecordPerIncubator: asks for unique ids among the eligible incubators rather than in the whole inventory. The game gives every item a unique id, so the two are the same in practice.
- `PokemonData` keeps seven of the fields of the game's egg record, so the equality `List.Remove` uses at `UseIncubatorsTask.cs:105` is coarser in the model than the source's value equality over every field. While egg ids are unique, as the game gives them, both remove the same egg.
- `Filter`, `Insert`, `OrderedIncubators` and `UnusedEggQueue` keep their exact membership and permutation facts in separate lemmas rather than in their own postconditions, so that other proofs stay small.
