/** What one run of the incubator task guarantees about its effects, lifted
    from the loop facts to the inputs of a run: the inventory snapshot, the
    stored usage file, the minimum-km setting and the cancellation point. */
module RunFacts {
  import opened Sequences
  import opened Inventory
  import opened Selection
  import opened UsageStore
  import opened Hatching
  import opened Allocation
  import opened AllocationFacts
  import opened UseIncubatorsTask

  /** Every egg put into an incubator obeys the rules: the incubator is an
      eligible idle one of the inventory, the egg an unused egg of the
      inventory, a limited incubator's egg reaches the minimum km, and a
      10 km egg below level 20 only goes in when every unused egg is one. */
  lemma RunRespectsRules(cancelAt: nat, inv: Snapshot, storedFile: Option<seq<IncubatorUsage>>, minKm: real,
                         commit: (string, nat) -> real)
    ensures var r := Run(cancelAt, inv, storedFile, minKm, commit);
      forall c :: c in r.Commits ==>
        && inv.PlayerStats != []
        && c.Incubator in inv.Incubators && Eligible(c.Incubator) && IsIdle(c.Incubator)
        && c.Egg in inv.Eggs && IsUnused(c.Egg)
        && (IsLimited(c.Incubator) ==> c.Egg.EggKmWalkedTarget >= minKm)
        && (c.Egg.EggKmWalkedTarget == TenKm && inv.PlayerStats[0].Level < TenKmLevel ==>
              forall e :: e in inv.Eggs && IsUnused(e) ==> e.EggKmWalkedTarget >= TenKm)
  {
    if cancelAt > 0 && inv.PlayerStats != [] {
      var incs := OrderedIncubators(inv.Incubators);
      var queue := UnusedEggQueue(inv.Eggs);
      var k := Processed(cancelAt, incs);
      var ctx := RunContext(inv.PlayerStats[0], queue, minKm);
      AllocateRespectsRules(incs[..k], |incs| > 1, queue, ctx, commit);
      PrefixMembers(incs[..k], incs);
      OrderedIncubatorsMembers(inv.Incubators);
      UnusedEggQueueMembers(inv.Eggs);
    }
  }

  /** A run commits no more copies of an egg than the inventory lists, and
      none of an egg that is already incubating. */
  lemma RunCommitsUnusedEggs(cancelAt: nat, inv: Snapshot, storedFile: Option<seq<IncubatorUsage>>, minKm: real,
                             commit: (string, nat) -> real)
    ensures var r := Run(cancelAt, inv, storedFile, minKm, commit);
      forall e :: multiset(AssignedEggs(r.Commits))[e] <= if IsUnused(e) then multiset(inv.Eggs)[e] else 0
  {
    if cancelAt > 0 && inv.PlayerStats != [] {
      var incs := OrderedIncubators(inv.Incubators);
      var queue := UnusedEggQueue(inv.Eggs);
      var k := Processed(cancelAt, incs);
      var ctx := RunContext(inv.PlayerStats[0], queue, minKm);
      var a := Allocate(incs[..k], |incs| > 1, queue, ctx, commit);
      assert Run(cancelAt, inv, storedFile, minKm, commit).Commits == a.Commits;
      AllocateQueueAccounting(incs[..k], |incs| > 1, queue, ctx, commit);
      UnusedEggQueueMembers(inv.Eggs);
    }
  }

  /** With unique egg ids in the inventory, no egg id is committed twice in a run. */
  lemma RunCommitsEachEggOnce(cancelAt: nat, inv: Snapshot, storedFile: Option<seq<IncubatorUsage>>, minKm: real,
                              commit: (string, nat) -> real)
    requires DistinctIds(inv.Eggs)
    ensures DistinctIds(AssignedEggs(Run(cancelAt, inv, storedFile, minKm, commit).Commits))
  {
    if cancelAt > 0 && inv.PlayerStats != [] {
      var incs := OrderedIncubators(inv.Incubators);
      var queue := UnusedEggQueue(inv.Eggs);
      var k := Processed(cancelAt, incs);
      var ctx := RunContext(inv.PlayerStats[0], queue, minKm);
      var a := Allocate(incs[..k], |incs| > 1, queue, ctx, commit);
      assert Run(cancelAt, inv, storedFile, minKm, commit).Commits == a.Commits;
      UnusedEggQueueDistinctIds(inv.Eggs);
      AllocateAssignsEachEggOnce(incs[..k], |incs| > 1, queue, ctx, commit);
    }
  }

  /** Head or tail over a run: an incubator that prefers the shortest egg got
      one no longer than any unused egg of the inventory left over, and every
      other incubator one no shorter. */
  lemma RunPicksShortestOrLongest(cancelAt: nat, inv: Snapshot, storedFile: Option<seq<IncubatorUsage>>, minKm: real,
                                  commit: (string, nat) -> real)
    ensures var r := Run(cancelAt, inv, storedFile, minKm, commit);
      forall c, e :: c in r.Commits && IsUnused(e) && multiset(AssignedEggs(r.Commits))[e] < multiset(inv.Eggs)[e] ==>
        if PrefersShortest(c.Incubator, |OrderedIncubators(inv.Incubators)| > 1) then Distance(c.Egg) <= Distance(e)
        else Distance(c.Egg) >= Distance(e)
  {
    if cancelAt > 0 && inv.PlayerStats != [] {
      var incs := OrderedIncubators(inv.Incubators);
      var queue := UnusedEggQueue(inv.Eggs);
      var k := Processed(cancelAt, incs);
      var ctx := RunContext(inv.PlayerStats[0], queue, minKm);
      var a := Allocate(incs[..k], |incs| > 1, queue, ctx, commit);
      assert Run(cancelAt, inv, storedFile, minKm, commit).Commits == a.Commits;
      UnusedEggQueueSorted(inv.Eggs);
      AllocatePicksShortestOrLongest(incs[..k], |incs| > 1, queue, ctx, commit);
      AllocateQueueAccounting(incs[..k], |incs| > 1, queue, ctx, commit);
      UnusedEggQueueMembers(inv.Eggs);
      forall e | IsUnused(e) && multiset(AssignedEggs(a.Commits))[e] < multiset(inv.Eggs)[e]
        ensures e in a.Queue
      {
        assert multiset(queue)[e] == multiset(inv.Eggs)[e];
        assert multiset(a.Queue)[e] > 0;
      }
    }
  }

  /** Status events that match the records one by one: same count, and each
      is about the record's incubator and egg. */
  ghost predicate StatusMatchesRecords(events: seq<Event>, records: seq<IncubatorUsage>)
  {
    && |events| == |records|
    && forall j :: 0 <= j < |records| ==>
         && events[j].EggIncubatorStatus?
         && events[j].IncubatorId == records[j].IncubatorId
         && events[j].PokemonId == records[j].PokemonId
  }

  /** The events of a run that found player stats: the hatch events of the
      remembered usages first, then one incubator status event per new record,
      in lockstep with the records, and at least one record per commit. */
  lemma RunEvents(cancelAt: nat, inv: Snapshot, storedFile: Option<seq<IncubatorUsage>>, minKm: real,
                  commit: (string, nat) -> real)
    requires cancelAt > 0 && inv.PlayerStats != []
    ensures var r, h := Run(cancelAt, inv, storedFile, minKm, commit), HatchEvents(Load(storedFile), inv.Pokemons);
      && |h| <= |r.Events| && r.Events[..|h|] == h
      && StatusMatchesRecords(r.Events[|h|..], r.Records)
      && |r.Commits| <= |r.Records| <= |OrderedIncubators(inv.Incubators)|
  {
    var incs := OrderedIncubators(inv.Incubators);
    var queue := UnusedEggQueue(inv.Eggs);
    var k := Processed(cancelAt, incs);
    var ctx := RunContext(inv.PlayerStats[0], queue, minKm);
    var h := HatchEvents(Load(storedFile), inv.Pokemons);
    var a := Allocate(incs[..k], |incs| > 1, queue, ctx, commit);
    var r := Run(cancelAt, inv, storedFile, minKm, commit);
    assert r.Events == h + a.Events && r.Records == a.Records && r.Commits == a.Commits;
    AllocateRecordsMatchEvents(incs[..k], |incs| > 1, queue, ctx, commit);
    assert r.Events[..|h|] == h && r.Events[|h|..] == a.Events;
  }

  /** A run records each eligible incubator at most once, in the order the
      eligible incubators are visited; the same holds for its commits. */
  lemma RunRecordsInOrder(cancelAt: nat, inv: Snapshot, storedFile: Option<seq<IncubatorUsage>>, minKm: real,
                          commit: (string, nat) -> real)
    ensures var r, order := Run(cancelAt, inv, storedFile, minKm, commit), IncubatorIds(OrderedIncubators(inv.Incubators));
      && IsSubsequence(UsageIds(r.Records), order)
      && IsSubsequence(IncubatorIds(CommittedIncubators(r.Commits)), order)
  {
    if cancelAt > 0 && inv.PlayerStats != [] {
      var incs := OrderedIncubators(inv.Incubators);
      var queue := UnusedEggQueue(inv.Eggs);
      var k := Processed(cancelAt, incs);
      var ctx := RunContext(inv.PlayerStats[0], queue, minKm);
      var a := Allocate(incs[..k], |incs| > 1, queue, ctx, commit);
      var r := Run(cancelAt, inv, storedFile, minKm, commit);
      assert r.Records == a.Records && r.Commits == a.Commits;
      AllocateRecordsInIncubatorOrder(incs[..k], |incs| > 1, queue, ctx, commit);
      AllocateCommitsInIncubatorOrder(incs[..k], |incs| > 1, queue, ctx, commit);
      IncubatorIdsTake(incs, k);
      SubsequencePrefix(UsageIds(a.Records), IncubatorIds(incs), k);
      SubsequencePrefix(IncubatorIds(CommittedIncubators(a.Commits)), IncubatorIds(incs), k);
    }
  }

  /** With unique ids among the eligible incubators, no incubator id appears
      twice in the new usage list, and no incubator is committed twice. */
  lemma RunOneRecordPerIncubator(cancelAt: nat, inv: Snapshot, storedFile: Option<seq<IncubatorUsage>>, minKm: real,
                                 commit: (string, nat) -> real)
    requires Distinct(IncubatorIds(OrderedIncubators(inv.Incubators)))
    ensures var r := Run(cancelAt, inv, storedFile, minKm, commit);
      Distinct(UsageIds(r.Records)) && Distinct(IncubatorIds(CommittedIncubators(r.Commits)))
  {
    var r := Run(cancelAt, inv, storedFile, minKm, commit);
    RunRecordsInOrder(cancelAt, inv, storedFile, minKm, commit);
    SubsequenceDistinct(UsageIds(r.Records), IncubatorIds(OrderedIncubators(inv.Incubators)));
    SubsequenceDistinct(IncubatorIds(CommittedIncubators(r.Commits)), IncubatorIds(OrderedIncubators(inv.Incubators)));
  }

  /** Every commit of a run is in its new usage list, and a run that was not
      cancelled also lists every eligible incubator that already held an egg,
      with that egg. */
  lemma RunRecordsCover(cancelAt: nat, inv: Snapshot, storedFile: Option<seq<IncubatorUsage>>, minKm: real,
                        commit: (string, nat) -> real)
    ensures var r := Run(cancelAt, inv, storedFile, minKm, commit);
      forall c :: c in r.Commits ==> IncubatorUsage(c.Incubator.Id, c.Egg.Id) in r.Records
    ensures var r := Run(cancelAt, inv, storedFile, minKm, commit);
      r.Exit == Finished && inv.PlayerStats != [] ==>
        forall inc :: inc in inv.Incubators && Eligible(inc) && !IsIdle(inc) ==>
          IncubatorUsage(inc.Id, inc.PokemonId) in r.Records
  {
    if cancelAt > 0 && inv.PlayerStats != [] {
      var incs := OrderedIncubators(inv.Incubators);
      var queue := UnusedEggQueue(inv.Eggs);
      var k := Processed(cancelAt, incs);
      var ctx := RunContext(inv.PlayerStats[0], queue, minKm);
      var a := Allocate(incs[..k], |incs| > 1, queue, ctx, commit);
      var r := Run(cancelAt, inv, storedFile, minKm, commit);
      assert r.Commits == a.Commits && r.Records == a.Records && (r.Exit == Finished <==> k == |incs|);
      AllocateRecordsCoverIncubators(incs[..k], |incs| > 1, queue, ctx, commit);
      if k == |incs| {
        assert incs[..k] == incs;
        OrderedIncubatorsMembers(inv.Incubators);
      }
    }
  }

  /** A run whose token is seen later does everything an earlier-cancelled run
      does, and more: the earlier run's commits, records and events begin the
      later run's. In particular a cancelled run's effects begin those of the
      run that finishes. */
  lemma CancelledRunIsPrefix(cancelAt: nat, later: nat, inv: Snapshot, storedFile: Option<seq<IncubatorUsage>>,
                             minKm: real, commit: (string, nat) -> real)
    requires cancelAt <= later
    ensures var r, r' := Run(cancelAt, inv, storedFile, minKm, commit), Run(later, inv, storedFile, minKm, commit);
      r.Commits <= r'.Commits && r.Records <= r'.Records && r.Events <= r'.Events
  {
    if cancelAt > 0 && inv.PlayerStats != [] {
      var incs := OrderedIncubators(inv.Incubators);
      var queue := UnusedEggQueue(inv.Eggs);
      var k, k' := Processed(cancelAt, incs), Processed(later, incs);
      var ctx := RunContext(inv.PlayerStats[0], queue, minKm);
      var h := HatchEvents(Load(storedFile), inv.Pokemons);
      TakeTake(incs, k, k');
      AllocatePrefix(incs[..k'], k, |incs| > 1, queue, ctx, commit);
      var a, a' := Allocate(incs[..k], |incs| > 1, queue, ctx, commit), Allocate(incs[..k'], |incs| > 1, queue, ctx, commit);
      var r, r' := Run(cancelAt, inv, storedFile, minKm, commit), Run(later, inv, storedFile, minKm, commit);
      assert r.Commits == a.Commits && r.Records == a.Records && r.Events == h + a.Events;
      assert r'.Commits == a'.Commits && r'.Records == a'.Records && r'.Events == h + a'.Events;
      PrefixAfter(h, a.Events, a'.Events);
    }
  }

  /** Putting the same events in front keeps a prefix a prefix. */
  lemma PrefixAfter(h: seq<Event>, x: seq<Event>, y: seq<Event>)
    requires x <= y
    ensures h + x <= h + y
  {
    assert (h + y)[..|h + x|] == h + y[..|x|];
  }

  /** After a completed run that found player stats, the usage file holds the
      run's new list, whether it was written or already held it. */
  lemma RunStoreHoldsRecords(cancelAt: nat, inv: Snapshot, storedFile: Option<seq<IncubatorUsage>>, minKm: real,
                             commit: (string, nat) -> real)
    ensures var r := Run(cancelAt, inv, storedFile, minKm, commit);
      r.Exit == Finished && inv.PlayerStats != [] ==>
        && Load(Persist(storedFile, r.Saved)) == r.Records
        && (r.Saved.None? ==> Persist(storedFile, r.Saved) == storedFile)
  {
  }

  /** Hatch events at the level of a run: after the entry check and the
      player stats, exactly one hatch event per remembered usage whose egg
      is now a non-egg pokemon, in the order of the stored list. */
  lemma RunHatchEvents(cancelAt: nat, inv: Snapshot, storedFile: Option<seq<IncubatorUsage>>, minKm: real,
                       commit: (string, nat) -> real, hatched: IncubatorUsage -> bool)
    requires cancelAt > 0 && inv.PlayerStats != []
    requires forall u :: hatched(u) <==> exists p :: p in inv.Pokemons && !p.IsEgg && p.Id == u.PokemonId
    ensures var r, found := Run(cancelAt, inv, storedFile, minKm, commit), Filter(Load(storedFile), hatched);
      && |found| <= |r.Events|
      && forall j :: 0 <= j < |found| ==> r.Events[j].EggHatched? && r.Events[j].Id == found[j].PokemonId
  {
    var h := HatchEvents(Load(storedFile), inv.Pokemons);
    HatchEventsMatchHatchedUsages(Load(storedFile), inv.Pokemons, hatched);
    RunEvents(cancelAt, inv, storedFile, minKm, commit);
    var r := Run(cancelAt, inv, storedFile, minKm, commit);
    forall j | 0 <= j < |h| ensures r.Events[j] == h[j] {
      assert r.Events[..|h|][j] == r.Events[j];
    }
  }
}
