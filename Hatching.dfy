/** Hatch detection: a remembered usage whose egg id now belongs to a pokemon
    that is no longer an egg has hatched since the last run. */
module Hatching {
  import opened Sequences
  import opened Inventory

  /** `pokemons.FirstOrDefault(x => !x.IsEgg && x.Id == id)`. */
  function FirstHatched(pokemons: seq<PokemonData>, id: nat): (hatched: Option<PokemonData>)
    ensures hatched.None? <==> forall p :: p in pokemons ==> p.IsEgg || p.Id != id
    ensures hatched.Some? ==> hatched.value in pokemons && !hatched.value.IsEgg && hatched.value.Id == id
  {
    FirstWhere(pokemons, (p: PokemonData) => !p.IsEgg && p.Id == id)
  }

  /** The events one remembered usage gives rise to: one hatch event for the
      first non-egg pokemon with the remembered id, or none. */
  function HatchEventFor(record: IncubatorUsage, pokemons: seq<PokemonData>): (events: seq<Event>)
    ensures |events| <= 1
    ensures |events| == 1 <==> exists p :: p in pokemons && !p.IsEgg && p.Id == record.PokemonId
    ensures |events| == 1 ==>
      && events[0].EggHatched? && events[0].Id == record.PokemonId
      && exists p :: p in pokemons && !p.IsEgg && p.Id == record.PokemonId
                     && events[0].PokemonId == p.PokemonId && events[0].Cp == p.Cp
  {
    match FirstHatched(pokemons, record.PokemonId)
    case None => []
    case Some(p) => [EggHatched(p.Id, p.PokemonId, p.Cp)]
  }

  /** The hatch events of a list of remembered usages, in list order. */
  function HatchEvents(remembered: seq<IncubatorUsage>, pokemons: seq<PokemonData>): (events: seq<Event>)
    ensures |events| <= |remembered|
    ensures forall i :: 0 <= i < |events| ==> events[i].EggHatched?
  {
    if remembered == [] then []
    else HatchEvents(remembered[..|remembered| - 1], pokemons) + HatchEventFor(remembered[|remembered| - 1], pokemons)
  }

  /** The loop over the remembered usages that sends the hatch events. */
  method DetectHatched(remembered: seq<IncubatorUsage>, pokemons: seq<PokemonData>) returns (events: seq<Event>)
    ensures events == HatchEvents(remembered, pokemons)
  {
    events := [];
    var i := 0;
    while i < |remembered|
      invariant 0 <= i <= |remembered|
      invariant events == HatchEvents(remembered[..i], pokemons)
    {
      var record := remembered[i];
      var hatched := FirstHatched(pokemons, record.PokemonId);
      if hatched.Some? {
        var p := hatched.value;
        events := events + [EggHatched(p.Id, p.PokemonId, p.Cp)];
      }
      assert remembered[..i + 1][..i] == remembered[..i];
      i := i + 1;
    }
    assert remembered[..i] == remembered;
  }

  /** Exactly one hatch event per remembered usage whose egg has hatched, in
      the order of the remembered list, and none for any other usage.
      `hatched` selects the usages whose egg has hatched. */
  lemma {:induction false} HatchEventsMatchHatchedUsages(remembered: seq<IncubatorUsage>, pokemons: seq<PokemonData>,
                                                         hatched: IncubatorUsage -> bool)
    requires forall r :: hatched(r) <==> exists p :: p in pokemons && !p.IsEgg && p.Id == r.PokemonId
    ensures var events, found := HatchEvents(remembered, pokemons), Filter(remembered, hatched);
      |events| == |found| && forall j :: 0 <= j < |events| ==> events[j].EggHatched? && events[j].Id == found[j].PokemonId
  {
    if remembered != [] {
      var n := |remembered| - 1;
      var front, last := remembered[..n], remembered[n];
      HatchEventsMatchHatchedUsages(front, pokemons, hatched);
      assert remembered == front + [last];
      FilterAppend(front, [last], hatched);
      var e0: seq<Event>, f0: seq<IncubatorUsage> := HatchEvents(front, pokemons), Filter(front, hatched);
      var e1: seq<Event>, f1: seq<IncubatorUsage> := HatchEventFor(last, pokemons), Filter([last], hatched);
      assert f1 == (if hatched(last) then [last] else []) + Filter([last][1..], hatched);
      assert [last][1..] == [];
      assert |e1| == |f1|;
      forall j | 0 <= j < |e0| + |e1| ensures (e0 + e1)[j].EggHatched? && (e0 + e1)[j].Id == (f0 + f1)[j].PokemonId {
        if j >= |e0| {
          assert (e0 + e1)[j] == e1[0] && (f0 + f1)[j] == last;
        } else {
          assert (e0 + e1)[j] == e0[j] && (f0 + f1)[j] == f0[j];
        }
      }
    }
  }

  /** Hatch detection only reads the remembered list: each event is about a
      pokemon that exists, is no longer an egg and was remembered in an incubator. */
  lemma {:induction false} HatchEventsSound(remembered: seq<IncubatorUsage>, pokemons: seq<PokemonData>)
    ensures forall e :: e in HatchEvents(remembered, pokemons) ==>
      && e.EggHatched? && (exists r :: r in remembered && r.PokemonId == e.Id)
      && exists p :: p in pokemons && !p.IsEgg && p.Id == e.Id && p.PokemonId == e.PokemonId
  {
    if remembered != [] {
      var n := |remembered| - 1;
      HatchEventsSound(remembered[..n], pokemons);
      assert remembered[n] in remembered;
      forall r | r in remembered[..n] ensures r in remembered {
        var k :| 0 <= k < n && remembered[..n][k] == r;
        assert remembered[k] == r;
      }
    }
  }
}
