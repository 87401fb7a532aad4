/** Concrete runs of the incubator task on small inventories. Each run is
    worked out in stages: the incubator order, the egg queue, the loop steps,
    then the whole run. */
module Scenarios {
  import opened Sequences
  import opened Inventory
  import opened Selection
  import opened UsageStore
  import opened Allocation
  import opened UseIncubatorsTask

  const Unlimited := EggIncubator("U", ItemIncubatorBasicUnlimited, 0, 0, 0.0, 0.0)
  const Limited := EggIncubator("L", ItemIncubatorBasic, 0, 3, 0.0, 0.0)
  const TwoKmEgg := PokemonData(7, true, 0, 0, "", 2.0, 0.0)
  const TenKmEgg := PokemonData(8, true, 0, 0, "", 10.0, 0.0)
  const Stats := PlayerStats(25, 50.0)
  const LowStats := PlayerStats(5, 50.0)

  /** The commit call of these runs: every new target is 100 km. */
  function Target(incubatorId: string, eggId: nat): real
  {
    100.0
  }

  lemma FilterOne<T>(x: T, p: T -> bool)
    requires p(x)
    ensures Filter([x], p) == [x]
  {
    assert [x][1..] == [];
  }

  lemma FilterTwo<T>(x: T, y: T, p: T -> bool)
    requires p(x) && p(y)
    ensures Filter([x, y], p) == [x, y]
  {
    assert [x, y][1..] == [y];
    FilterOne(y, p);
  }

  lemma SortOne<T>(x: T, key: T -> real)
    ensures SortBy([x], key) == [x]
  {
    assert [x][1..] == [];
  }

  lemma SortTwo<T>(x: T, y: T, key: T -> real)
    requires key(y) < key(x)
    ensures SortBy([x, y], key) == [y, x]
  {
    assert [x, y][1..] == [y];
    SortOne(y, key);
    assert Insert(x, [y], key) == [y] + Insert(x, [], key);
  }

  /** The unlimited incubator is tried first although it is listed second. */
  lemma UnlimitedTriedFirst()
    ensures OrderedIncubators([Limited, Unlimited]) == [Unlimited, Limited]
  {
    FilterTwo(Limited, Unlimited, Eligible);
    SortTwo(Limited, Unlimited, UnlimitedRank);
  }

  lemma SingleIncubator(inc: EggIncubator)
    requires Eligible(inc)
    ensures OrderedIncubators([inc]) == [inc]
  {
    FilterOne(inc, Eligible);
    SortOne(inc, UnlimitedRank);
  }

  /** The shorter egg is queued first although it is listed second. */
  lemma ShortEggQueuedFirst()
    ensures UnusedEggQueue([TenKmEgg, TwoKmEgg]) == [TwoKmEgg, TenKmEgg]
    ensures !OnlyTenKmEggs([TwoKmEgg, TenKmEgg])
  {
    FilterTwo(TenKmEgg, TwoKmEgg, IsUnused);
    SortTwo(TenKmEgg, TwoKmEgg, Distance);
    assert TwoKmEgg in [TwoKmEgg, TenKmEgg];
  }

  lemma SingleEgg(egg: PokemonData)
    requires IsUnused(egg)
    ensures UnusedEggQueue([egg]) == [egg]
    ensures OnlyTenKmEggs([egg]) <==> egg.EggKmWalkedTarget >= TenKm
  {
    FilterOne(egg, IsUnused);
    SortOne(egg, Distance);
  }

  /** First step of the two-incubator run: the unlimited incubator takes the head. */
  lemma UnlimitedStep()
    ensures Step(Allocation([], [], [], [TwoKmEgg, TenKmEgg]), Unlimited, true, Context(25, 50.0, 2.0, false), Target)
      == Allocation([IncubatorUsage("U", 7)], [EggIncubatorStatus("U", true, 7, 2.0, 50.0)],
                    [Assignment(Unlimited, TwoKmEgg)], [TenKmEgg])
  {
    assert Remove([TwoKmEgg, TenKmEgg], TwoKmEgg) == [TenKmEgg];
  }

  /** Second step: the limited incubator takes the tail, the only egg left. */
  lemma LimitedStep()
    ensures Step(Allocation([IncubatorUsage("U", 7)], [EggIncubatorStatus("U", true, 7, 2.0, 50.0)],
                            [Assignment(Unlimited, TwoKmEgg)], [TenKmEgg]),
                 Limited, true, Context(25, 50.0, 2.0, false), Target)
      == Allocation([IncubatorUsage("U", 7), IncubatorUsage("L", 8)],
                    [EggIncubatorStatus("U", true, 7, 2.0, 50.0), EggIncubatorStatus("L", true, 8, 10.0, 50.0)],
                    [Assignment(Unlimited, TwoKmEgg), Assignment(Limited, TenKmEgg)], [])
  {
    assert Remove([TenKmEgg], TenKmEgg) == [];
  }

  /** The loop over both incubators, stopped before the second or not at all. */
  lemma TwoIncubatorLoop()
    ensures Allocate([Unlimited, Limited][..1], true, [TwoKmEgg, TenKmEgg], Context(25, 50.0, 2.0, false), Target).Commits
      == [Assignment(Unlimited, TwoKmEgg)]
    ensures Allocate([Unlimited, Limited][..2], true, [TwoKmEgg, TenKmEgg], Context(25, 50.0, 2.0, false), Target)
      == Allocation([IncubatorUsage("U", 7), IncubatorUsage("L", 8)],
                    [EggIncubatorStatus("U", true, 7, 2.0, 50.0), EggIncubatorStatus("L", true, 8, 10.0, 50.0)],
                    [Assignment(Unlimited, TwoKmEgg), Assignment(Limited, TenKmEgg)], [])
  {
    var s := [Unlimited, Limited];
    assert s[..1] == [Unlimited] && s[..1][..0] == [] && s[..2] == s && s[..1] == s[..|s| - 1];
    UnlimitedStep();
    LimitedStep();
  }

  /** With an unlimited and a limited incubator, the unlimited one takes the
      shortest egg and the limited one the longest. Both records are new, so
      the list is saved. */
  lemma UnlimitedTakesShortestLimitedTakesLongest()
    ensures var r := Run(3, Snapshot([Stats], [Limited, Unlimited], [TenKmEgg, TwoKmEgg], []), None, 2.0, Target);
      && r.Exit == Finished
      && r.Commits == [Assignment(Unlimited, TwoKmEgg), Assignment(Limited, TenKmEgg)]
      && r.Records == [IncubatorUsage("U", 7), IncubatorUsage("L", 8)]
      && r.Events == [EggIncubatorStatus("U", true, 7, 2.0, 50.0), EggIncubatorStatus("L", true, 8, 10.0, 50.0)]
      && r.Saved == Some(r.Records)
  {
    UnlimitedTriedFirst();
    ShortEggQueuedFirst();
    TwoIncubatorLoop();
    var inv := Snapshot([Stats], [Limited, Unlimited], [TenKmEgg, TwoKmEgg], []);
    RunStages(3, inv, None, 2.0, [Unlimited, Limited], [TwoKmEgg, TenKmEgg], Context(25, 50.0, 2.0, false), 2);
  }

  /** The same run with the token seen before the second incubator stops after
      the first commit and saves nothing. */
  lemma CancelledAfterFirstIncubator()
    ensures var r := Run(2, Snapshot([Stats], [Limited, Unlimited], [TenKmEgg, TwoKmEgg], []), None, 2.0, Target);
      && r.Exit == Cancelled
      && r.Commits == [Assignment(Unlimited, TwoKmEgg)]
      && r.Saved == None
  {
    UnlimitedTriedFirst();
    ShortEggQueuedFirst();
    TwoIncubatorLoop();
  }

  /** A run after the entry check with player stats, in terms of its loop. */
  lemma RunStages(cancelAt: nat, inv: Snapshot, storedFile: Option<seq<IncubatorUsage>>, minKm: real,
                  incs: seq<EggIncubator>, queue: seq<PokemonData>, ctx: Context, k: nat)
    requires cancelAt > 0 && inv.PlayerStats != []
    requires incs == OrderedIncubators(inv.Incubators) && queue == UnusedEggQueue(inv.Eggs)
    requires ctx == RunContext(inv.PlayerStats[0], queue, minKm) && k == Processed(cancelAt, incs)
    ensures var r, a := Run(cancelAt, inv, storedFile, minKm, Target), Allocate(incs[..k], |incs| > 1, queue, ctx, Target);
      && r.Exit == (if k < |incs| then Cancelled else Finished)
      && r.Commits == a.Commits && r.Records == a.Records
      && r.Events == Hatching.HatchEvents(Load(storedFile), inv.Pokemons) + a.Events
      && r.Saved == (if k < |incs| then None else SaveDecision(a.Records, Load(storedFile)))
  {
  }

  /** One idle incubator alone in the loop. */
  lemma LoneIncubatorLoop(inc: EggIncubator, queue: seq<PokemonData>, ctx: Context)
    ensures Allocate([inc][..1], false, queue, ctx, Target) == Step(Allocation([], [], [], queue), inc, false, ctx, Target)
  {
    assert [inc][..1] == [inc] && [inc][..1][..0] == [];
  }

  /** Alone, the unlimited incubator considers the tail of the queue. */
  lemma LoneUnlimitedStep()
    ensures Step(Allocation([], [], [], [TwoKmEgg, TenKmEgg]), Unlimited, false, Context(25, 50.0, 2.0, false), Target).Commits
      == [Assignment(Unlimited, TenKmEgg)]
  {
  }

  /** An idle incubator whose rules allow the only queued egg takes it. */
  lemma LastEggStep(inc: EggIncubator, egg: PokemonData, ctx: Context)
    requires IsIdle(inc) && TenKmGateAllows(egg, ctx) && MinKmAllows(inc, egg, ctx)
    ensures Step(Allocation([], [], [], [egg]), inc, false, ctx, Target).Commits == [Assignment(inc, egg)]
  {
  }

  /** A lone unlimited incubator takes the longest egg. */
  lemma LoneUnlimitedTakesLongest()
    ensures Run(2, Snapshot([Stats], [Unlimited], [TenKmEgg, TwoKmEgg], []), None, 2.0, Target).Commits
      == [Assignment(Unlimited, TenKmEgg)]
  {
    SingleIncubator(Unlimited);
    ShortEggQueuedFirst();
    var ctx := Context(25, 50.0, 2.0, false);
    RunStages(2, Snapshot([Stats], [Unlimited], [TenKmEgg, TwoKmEgg], []), None, 2.0, [Unlimited], [TwoKmEgg, TenKmEgg], ctx, 1);
    LoneIncubatorLoop(Unlimited, [TwoKmEgg, TenKmEgg], ctx);
    LoneUnlimitedStep();
  }

  /** Below level 20 a 10 km egg waits while a shorter egg exists. */
  lemma TenKmEggWaits()
    ensures Run(2, Snapshot([LowStats], [Limited], [TenKmEgg, TwoKmEgg], []), None, 2.0, Target).Commits == []
  {
    SingleIncubator(Limited);
    ShortEggQueuedFirst();
    var ctx := Context(5, 50.0, 2.0, false);
    RunStages(2, Snapshot([LowStats], [Limited], [TenKmEgg, TwoKmEgg], []), None, 2.0, [Limited], [TwoKmEgg, TenKmEgg], ctx, 1);
    LoneIncubatorLoop(Limited, [TwoKmEgg, TenKmEgg], ctx);
  }

  /** Below level 20 a 10 km egg goes in once it is the only kind of egg left. */
  lemma OnlyTenKmEggsGoIn()
    ensures Run(2, Snapshot([LowStats], [Limited], [TenKmEgg], []), None, 2.0, Target).Commits
      == [Assignment(Limited, TenKmEgg)]
  {
    SingleIncubator(Limited);
    SingleEgg(TenKmEgg);
    var ctx := Context(5, 50.0, 2.0, true);
    RunStages(2, Snapshot([LowStats], [Limited], [TenKmEgg], []), None, 2.0, [Limited], [TenKmEgg], ctx, 1);
    LoneIncubatorLoop(Limited, [TenKmEgg], ctx);
    LastEggStep(Limited, TenKmEgg, ctx);
  }

  /** The minimum-km setting keeps a short egg out of a limited incubator. */
  lemma MinKmBindsLimited()
    ensures Run(2, Snapshot([Stats], [Limited], [TwoKmEgg], []), None, 5.0, Target).Commits == []
  {
    SingleIncubator(Limited);
    SingleEgg(TwoKmEgg);
    var ctx := Context(25, 50.0, 5.0, false);
    RunStages(2, Snapshot([Stats], [Limited], [TwoKmEgg], []), None, 5.0, [Limited], [TwoKmEgg], ctx, 1);
    LoneIncubatorLoop(Limited, [TwoKmEgg], ctx);
  }

  /** The minimum-km setting does not keep a short egg out of an unlimited incubator. */
  lemma MinKmSparesUnlimited()
    ensures Run(2, Snapshot([Stats], [Unlimited], [TwoKmEgg], []), None, 5.0, Target).Commits
      == [Assignment(Unlimited, TwoKmEgg)]
  {
    SingleIncubator(Unlimited);
    SingleEgg(TwoKmEgg);
    var ctx := Context(25, 50.0, 5.0, false);
    RunStages(2, Snapshot([Stats], [Unlimited], [TwoKmEgg], []), None, 5.0, [Unlimited], [TwoKmEgg], ctx, 1);
    LoneIncubatorLoop(Unlimited, [TwoKmEgg], ctx);
    LastEggStep(Unlimited, TwoKmEgg, ctx);
  }

  /** A remembered egg that is now a pokemon gives one hatch event; the new
      list is empty and differs from the remembered one, so it is saved. */
  lemma RememberedEggHatches()
    ensures var r := Run(1, Snapshot([Stats], [], [], [PokemonData(42, false, 25, 300, "", 0.0, 0.0)]),
                         Some([IncubatorUsage("U", 42)]), 2.0, Target);
      && r.Events == [EggHatched(42, 25, 300)]
      && r.Records == []
      && r.Saved == Some([])
  {
    assert OrderedIncubators([]) == [];
    assert UnusedEggQueue([]) == [];
  }
}
