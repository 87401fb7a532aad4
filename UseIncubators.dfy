/** One run of the incubator task: cancellation check, player stats, the
    incubator and egg inputs, hatch detection over the remembered usages, the
    allocation loop, and the save-if-changed decision. The inventory queries
    come in as a snapshot, the UseItemEggIncubator call as `commit`, the usage
    file as the value it holds, and the cancellation token as the index of the
    first check that sees it set. */
module UseIncubatorsTask {
  import opened Sequences
  import opened Inventory
  import opened Selection
  import opened UsageStore
  import opened Hatching
  import opened Allocation

  /** What the inventory queries of a run return. */
  datatype Snapshot = Snapshot(
    PlayerStats: seq<PlayerStats>,
    Incubators: seq<EggIncubator>,
    Eggs: seq<PokemonData>,
    Pokemons: seq<PokemonData>)

  /** How a run ends: normally, or on the cancellation token. */
  datatype Exit = Finished | Cancelled

  /** The effects of a run: how it ended, the events sent (hatch events first,
      then incubator status events), the commit calls made, the new usage list
      it built, and the list written to the usage file, if any. */
  datatype RunResult = RunResult(
    Exit: Exit,
    Events: seq<Event>,
    Commits: seq<Assignment>,
    Records: seq<IncubatorUsage>,
    Saved: Option<seq<IncubatorUsage>>)

  /** The loop inputs derived from the first player stats entry and the egg queue. */
  function RunContext(stats: PlayerStats, queue: seq<PokemonData>, minKm: real): (ctx: Context)
    ensures ctx.Level == stats.Level && ctx.KmWalked == stats.KmWalked && ctx.MinKm == minKm
    ensures ctx.OnlyTenKmEggs <==> forall e :: e in queue ==> e.EggKmWalkedTarget >= TenKm
  {
    Context(stats.Level, stats.KmWalked, minKm, OnlyTenKmEggs(queue))
  }

  /** How many eligible incubators the loop gets through before the token is
      seen: all of them, or the `cancelAt - 1` before check `cancelAt`. */
  function Processed(cancelAt: nat, incs: seq<EggIncubator>): (k: nat)
    requires cancelAt > 0
    ensures k <= |incs| && k <= cancelAt - 1
    ensures k < |incs| <==> cancelAt - 1 < |incs|
    ensures k < |incs| ==> k == cancelAt - 1
  {
    if cancelAt - 1 < |incs| then cancelAt - 1 else |incs|
  }

  /** The effects of one run that got past the entry check and found player
      stats: hatch events, then the loop over the eligible incubators, then,
      unless the token was seen, the save decision. */
  function RunWithStats(cancelAt: nat, inv: Snapshot, storedFile: Option<seq<IncubatorUsage>>, minKm: real,
                        commit: (string, nat) -> real): (r: RunResult)
    requires cancelAt > 0 && inv.PlayerStats != []
    ensures r.Exit == Cancelled <==> cancelAt - 1 < |OrderedIncubators(inv.Incubators)|
    ensures r.Saved.Some? <==> r.Exit == Finished && r.Records != Load(storedFile)
    ensures r.Saved.Some? ==> r.Saved.value == r.Records
  {
    var incs := OrderedIncubators(inv.Incubators);
    var queue := UnusedEggQueue(inv.Eggs);
    var remembered := Load(storedFile);
    var ctx := RunContext(inv.PlayerStats[0], queue, minKm);
    var k := Processed(cancelAt, incs);
    var alloc := Allocate(incs[..k], |incs| > 1, queue, ctx, commit);
    var events := HatchEvents(remembered, inv.Pokemons) + alloc.Events;
    if k < |incs| then RunResult(Cancelled, events, alloc.Commits, alloc.Records, None)
    else RunResult(Finished, events, alloc.Commits, alloc.Records, SaveDecision(alloc.Records, remembered))
  }

  /** The effects of one run. The cancellation token is first seen set at
      check `cancelAt`: check 0 is on entry, check i + 1 just before the
      (i + 1)-th eligible incubator. */
  function Run(cancelAt: nat, inv: Snapshot, storedFile: Option<seq<IncubatorUsage>>, minKm: real,
               commit: (string, nat) -> real): (r: RunResult)
    // cancelled on entry: nothing happens
    ensures cancelAt == 0 ==> r == RunResult(Cancelled, [], [], [], None)
    // no player stats: the run returns without any effect
    ensures cancelAt > 0 && inv.PlayerStats == [] ==> r == RunResult(Finished, [], [], [], None)
    // the loop is cut short exactly when the token is seen before the last incubator is done
    ensures r.Exit == Cancelled <==>
      cancelAt == 0 || (inv.PlayerStats != [] && cancelAt - 1 < |OrderedIncubators(inv.Incubators)|)
    // the file is written exactly when a completed run built a list that differs,
    // in order or content, from the remembered one, and then it gets that list
    ensures r.Saved.Some? <==> r.Exit == Finished && inv.PlayerStats != [] && r.Records != Load(storedFile)
    ensures r.Saved.Some? ==> r.Saved.value == r.Records
  {
    if cancelAt == 0 then RunResult(Cancelled, [], [], [], None)
    else if inv.PlayerStats == [] then RunResult(Finished, [], [], [], None)
    else RunWithStats(cancelAt, inv, storedFile, minKm, commit)
  }

  /** The part of Execute after the player stats were found. */
  method ExecuteWithStats(cancelAt: nat, inv: Snapshot, storedFile: Option<seq<IncubatorUsage>>, minKm: real,
                          commit: (string, nat) -> real)
    returns (r: RunResult)
    requires cancelAt > 0 && inv.PlayerStats != []
    ensures r == RunWithStats(cancelAt, inv, storedFile, minKm, commit)
  {
    var playerStats := inv.PlayerStats[0];
    var incubators := OrderedIncubators(inv.Incubators);
    var unusedEggs := UnusedEggQueue(inv.Eggs);
    var rememberedIncubators := Load(storedFile);
    var hatchEvents := DetectHatched(rememberedIncubators, inv.Pokemons);
    var only10kmEggs := OnlyTenKmEggs(unusedEggs);
    var ctx := Context(playerStats.Level, playerStats.KmWalked, minKm, only10kmEggs);
    var state, cancelled := AllocateEggs(incubators, unusedEggs, ctx, commit, cancelAt - 1);
    assert ctx == RunContext(playerStats, unusedEggs, minKm);
    RunWithStatsOf(cancelAt, inv, storedFile, minKm, commit, cancelled, state);
    if cancelled {
      return RunResult(Cancelled, hatchEvents + state.Events, state.Commits, state.Records, None);
    }
    var write := SaveDecision(state.Records, rememberedIncubators);
    r := RunResult(Finished, hatchEvents + state.Events, state.Commits, state.Records, write);
  }

  /** RunWithStats in terms of the loop's outcome. */
  lemma RunWithStatsOf(cancelAt: nat, inv: Snapshot, storedFile: Option<seq<IncubatorUsage>>, minKm: real,
                       commit: (string, nat) -> real, cancelled: bool, state: Allocation)
    requires cancelAt > 0 && inv.PlayerStats != []
    requires cancelled <==> cancelAt - 1 < |OrderedIncubators(inv.Incubators)|
    requires var incs := OrderedIncubators(inv.Incubators);
      var queue := UnusedEggQueue(inv.Eggs);
      state == Allocate(incs[..if cancelled then cancelAt - 1 else |incs|], |incs| > 1, queue,
                        RunContext(inv.PlayerStats[0], queue, minKm), commit)
    ensures var remembered := Load(storedFile);
      RunWithStats(cancelAt, inv, storedFile, minKm, commit)
      == RunResult(if cancelled then Cancelled else Finished, HatchEvents(remembered, inv.Pokemons) + state.Events,
                   state.Commits, state.Records, if cancelled then None else SaveDecision(state.Records, remembered))
  {
    var incs := OrderedIncubators(inv.Incubators);
    assert Processed(cancelAt, incs) == if cancelled then cancelAt - 1 else |incs|;
  }

  /** UseIncubatorsTask.Execute. */
  method Execute(cancelAt: nat, inv: Snapshot, storedFile: Option<seq<IncubatorUsage>>, minKm: real,
                 commit: (string, nat) -> real)
    returns (r: RunResult)
    ensures r == Run(cancelAt, inv, storedFile, minKm, commit)
  {
    if cancelAt == 0 {
      return RunResult(Cancelled, [], [], [], None);
    }
    if inv.PlayerStats == [] {
      return RunResult(Finished, [], [], [], None);
    }
    r := ExecuteWithStats(cancelAt, inv, storedFile, minKm, commit);
  }
}
