/** The allocation loop: each eligible incubator, in order, either mirrors the
    egg it already holds or, when idle, takes the head (shortest) or the tail
    (longest) egg of the queue, unless the 10 km gate or the minimum-km rule
    makes it skip. */
module Allocation {
  import opened Sequences
  import opened Inventory

  /** The target of the top egg tier, held back below level 20. */
  const TenKm: real := 10.0
  const TenKmLevel: int := 20

  /** What the loop reads besides the incubators and the queue: the player's
      level and km walked, the UseEggIncubatorMinKm setting, and the "only
      10 km eggs" flag computed once before the loop. */
  datatype Context = Context(Level: int, KmWalked: real, MinKm: real, OnlyTenKmEggs: bool)

  /** One UseItemEggIncubator call: the incubator and the egg put into it. */
  datatype Assignment = Assignment(Incubator: EggIncubator, Egg: PokemonData)

  /** The state the loop builds: the new usage list, the status events, the
      commit calls made, and what is left of the egg queue. */
  datatype Allocation = Allocation(
    Records: seq<IncubatorUsage>,
    Events: seq<Event>,
    Commits: seq<Assignment>,
    Queue: seq<PokemonData>)

  /** Unlimited incubators take the shortest egg, unless they are the only
      incubator; everything else takes the longest. */
  predicate PrefersShortest(inc: EggIncubator, multiple: bool)
  {
    IsUnlimited(inc) && multiple
  }

  /** The egg an idle incubator considers: FirstOrDefault or LastOrDefault of the queue. */
  function Candidate(inc: EggIncubator, multiple: bool, queue: seq<PokemonData>): (c: Option<PokemonData>)
    ensures c.None? <==> queue == []
    ensures c.Some? ==> c.value in queue
  {
    if queue == [] then None
    else if PrefersShortest(inc, multiple) then Some(queue[0])
    else Some(queue[|queue| - 1])
  }

  /** A 10 km egg waits until level 20, unless every unused egg is a 10 km egg. */
  predicate TenKmGateAllows(egg: PokemonData, ctx: Context)
  {
    !(egg.EggKmWalkedTarget == TenKm && ctx.Level < TenKmLevel && !ctx.OnlyTenKmEggs)
  }

  /** A limited incubator takes no egg whose target is below the minimum km. */
  predicate MinKmAllows(inc: EggIncubator, egg: PokemonData, ctx: Context)
  {
    !(egg.EggKmWalkedTarget < ctx.MinKm && !IsUnlimited(inc))
  }

  function StatusOfOccupied(inc: EggIncubator, ctx: Context): Event
  {
    EggIncubatorStatus(inc.Id, false, inc.PokemonId, inc.TargetKmWalked - inc.StartKmWalked, inc.TargetKmWalked - ctx.KmWalked)
  }

  function StatusOfAssigned(inc: EggIncubator, egg: PokemonData, newTargetKm: real, ctx: Context): Event
  {
    EggIncubatorStatus(inc.Id, true, egg.Id, egg.EggKmWalkedTarget, newTargetKm - ctx.KmWalked)
  }

  /** One pass of the loop body for incubator `inc`; `commit` stands for the
      UseItemEggIncubator call and gives the incubator's new target km. */
  function Step(a: Allocation, inc: EggIncubator, multiple: bool, ctx: Context,
                commit: (string, nat) -> real): (r: Allocation)
    // what was built so far is kept; at most one record and one event are added, in lockstep
    ensures |a.Records| <= |r.Records| <= |a.Records| + 1 && r.Records[..|a.Records|] == a.Records
    ensures |a.Events| <= |r.Events| && r.Events[..|a.Events|] == a.Events
    ensures |r.Events| - |a.Events| == |r.Records| - |a.Records|
    ensures |r.Records| > |a.Records| ==>
      && r.Records[|a.Records|].IncubatorId == inc.Id
      && r.Events[|a.Events|].EggIncubatorStatus?
      && r.Events[|a.Events|].IncubatorId == inc.Id
      && r.Events[|a.Events|].PokemonId == r.Records[|a.Records|].PokemonId
    // an occupied incubator only mirrors its egg
    ensures !IsIdle(inc) ==> r == a.(Records := a.Records + [IncubatorUsage(inc.Id, inc.PokemonId)],
                                     Events := a.Events + [StatusOfOccupied(inc, ctx)])
    // an idle incubator that gets no egg leaves everything as it was
    ensures IsIdle(inc) && r.Commits == a.Commits ==> r == a
    ensures r.Commits == a.Commits ==> r.Queue == a.Queue
    // an idle incubator gets its candidate exactly when both rules allow it
    ensures r.Commits != a.Commits <==>
      IsIdle(inc) && Candidate(inc, multiple, a.Queue).Some?
      && TenKmGateAllows(Candidate(inc, multiple, a.Queue).value, ctx)
      && MinKmAllows(inc, Candidate(inc, multiple, a.Queue).value, ctx)
    // an assignment commits the candidate, takes it off the queue and records it
    ensures r.Commits != a.Commits ==>
      var egg := Candidate(inc, multiple, a.Queue).value;
      && egg in a.Queue
      && r.Commits == a.Commits + [Assignment(inc, egg)]
      && r.Queue == Remove(a.Queue, egg)
      && multiset(r.Queue) == multiset(a.Queue) - multiset{egg}
      && r.Records == a.Records + [IncubatorUsage(inc.Id, egg.Id)]
      && r.Events == a.Events + [StatusOfAssigned(inc, egg, commit(inc.Id, egg.Id), ctx)]
  {
    if !IsIdle(inc) then
      a.(Records := a.Records + [IncubatorUsage(inc.Id, inc.PokemonId)],
         Events := a.Events + [StatusOfOccupied(inc, ctx)])
    else
      match Candidate(inc, multiple, a.Queue)
      case None => a
      case Some(egg) =>
        if !TenKmGateAllows(egg, ctx) then a
        else if !MinKmAllows(inc, egg, ctx) then a
        else
          Allocation(a.Records + [IncubatorUsage(inc.Id, egg.Id)],
                     a.Events + [StatusOfAssigned(inc, egg, commit(inc.Id, egg.Id), ctx)],
                     a.Commits + [Assignment(inc, egg)],
                     Remove(a.Queue, egg))
  }

  /** The loop run over `incubators`, starting from the egg queue `queue`;
      `multiple` is whether the whole eligible list has more than one incubator. */
  function Allocate(incubators: seq<EggIncubator>, multiple: bool, queue: seq<PokemonData>, ctx: Context,
                    commit: (string, nat) -> real): (r: Allocation)
    ensures |r.Records| == |r.Events| <= |incubators|
  {
    if incubators == [] then Allocation([], [], [], queue)
    else
      Step(Allocate(incubators[..|incubators| - 1], multiple, queue, ctx, commit),
           incubators[|incubators| - 1], multiple, ctx, commit)
  }

  /** The eggs of a list of assignments, in order. */
  function AssignedEggs(commits: seq<Assignment>): (eggs: seq<PokemonData>)
    ensures |eggs| == |commits|
    ensures forall i :: 0 <= i < |commits| ==> eggs[i] == commits[i].Egg
  {
    if commits == [] then [] else AssignedEggs(commits[..|commits| - 1]) + [commits[|commits| - 1].Egg]
  }

  /** The incubators of a list of assignments, in order. */
  function CommittedIncubators(commits: seq<Assignment>): (incs: seq<EggIncubator>)
    ensures |incs| == |commits|
    ensures forall i :: 0 <= i < |commits| ==> incs[i] == commits[i].Incubator
  {
    if commits == [] then [] else CommittedIncubators(commits[..|commits| - 1]) + [commits[|commits| - 1].Incubator]
  }

  /** The body of the foreach loop for one incubator `inc`, given the state so far. */
  method VisitIncubator(state: Allocation, inc: EggIncubator, multiple: bool, ctx: Context,
                        commit: (string, nat) -> real)
    returns (next: Allocation)
    ensures next == Step(state, inc, multiple, ctx, commit)
  {
    var unusedEggs, records, events, commits := state.Queue, state.Records, state.Events, state.Commits;
    if inc.PokemonId == 0 {
      if unusedEggs != [] {
        var egg := if IsUnlimited(inc) && multiple then unusedEggs[0] else unusedEggs[|unusedEggs| - 1];
        if egg.EggKmWalkedTarget == TenKm && ctx.Level < TenKmLevel && !ctx.OnlyTenKmEggs {
          // held back until level 20
        } else if egg.EggKmWalkedTarget < ctx.MinKm && !IsUnlimited(inc) {
          // too short for a limited incubator
        } else {
          var newTargetKm := commit(inc.Id, egg.Id);
          unusedEggs := Remove(unusedEggs, egg);
          records := records + [IncubatorUsage(inc.Id, egg.Id)];
          events := events + [EggIncubatorStatus(inc.Id, true, egg.Id, egg.EggKmWalkedTarget, newTargetKm - ctx.KmWalked)];
          commits := commits + [Assignment(inc, egg)];
        }
      }
    } else {
      records := records + [IncubatorUsage(inc.Id, inc.PokemonId)];
      events := events + [EggIncubatorStatus(inc.Id, false, inc.PokemonId,
                                             inc.TargetKmWalked - inc.StartKmWalked, inc.TargetKmWalked - ctx.KmWalked)];
    }
    next := Allocation(records, events, commits, unusedEggs);
  }

  /** The foreach loop over the eligible incubators. The cancellation token is
      first seen set before incubator `stopBefore` (never, when that is past the end). */
  method AllocateEggs(incubators: seq<EggIncubator>, queue: seq<PokemonData>, ctx: Context,
                      commit: (string, nat) -> real, stopBefore: nat)
    returns (result: Allocation, cancelled: bool)
    ensures cancelled <==> stopBefore < |incubators|
    ensures result == Allocate(incubators[..if cancelled then stopBefore else |incubators|],
                               |incubators| > 1, queue, ctx, commit)
  {
    var multiple := |incubators| > 1;
    result := Allocation([], [], [], queue);
    cancelled := false;
    var i := 0;
    while i < |incubators|
      invariant 0 <= i <= |incubators| && i <= stopBefore
      invariant !cancelled
      invariant result == Allocate(incubators[..i], multiple, queue, ctx, commit)
    {
      if i == stopBefore {
        cancelled := true;
        break;
      }
      assert incubators[..i + 1][..i] == incubators[..i];
      assert Allocate(incubators[..i + 1], multiple, queue, ctx, commit)
          == Step(Allocate(incubators[..i], multiple, queue, ctx, commit), incubators[i], multiple, ctx, commit);
      result := VisitIncubator(result, incubators[i], multiple, ctx, commit);
      i := i + 1;
    }
    if !cancelled {
      assert incubators[..i] == incubators;
    }
  }
}
