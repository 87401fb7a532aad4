/** The inventory records the incubator task reads, the events it sends,
    and the record it remembers between runs. Distances are in km, exact. */
module Inventory {

  /** The item kinds of an egg incubator; only the unlimited one is told apart. */
  datatype ItemId = ItemIncubatorBasicUnlimited | ItemIncubatorBasic

  /** An egg incubator; `PokemonId == 0` means it holds no egg. */
  datatype EggIncubator = EggIncubator(
    Id: string,
    ItemId: ItemId,
    PokemonId: nat,
    UsesRemaining: int,
    StartKmWalked: real,
    TargetKmWalked: real)

  /** A pokemon or an egg; an egg sitting in an incubator has a non-empty `EggIncubatorId`. */
  datatype PokemonData = PokemonData(
    Id: nat,
    IsEgg: bool,
    PokemonId: nat,
    Cp: int,
    EggIncubatorId: string,
    EggKmWalkedTarget: real,
    EggKmWalkedStart: real)

  datatype PlayerStats = PlayerStats(Level: int, KmWalked: real)

  /** What is remembered of one incubator between runs: which egg it holds. */
  datatype IncubatorUsage = IncubatorUsage(IncubatorId: string, PokemonId: nat)

  /** The events sent to the event dispatcher. The hatch event keeps the
      pokemon's id, species and CP; its derived level, maximum CP and
      perfection are computed by code outside this model. */
  datatype Event =
    | EggHatched(Id: nat, PokemonId: nat, Cp: int)
    | EggIncubatorStatus(IncubatorId: string, WasAddedNow: bool, PokemonId: nat, KmToWalk: real, KmRemaining: real)

  predicate IsUnlimited(inc: EggIncubator)
  {
    inc.ItemId == ItemIncubatorBasicUnlimited
  }

  predicate IsLimited(inc: EggIncubator)
  {
    !IsUnlimited(inc)
  }

  predicate IsIdle(inc: EggIncubator)
  {
    inc.PokemonId == 0
  }

  /** The km an egg still needs when it goes into an incubator. */
  function Distance(egg: PokemonData): real
  {
    egg.EggKmWalkedTarget - egg.EggKmWalkedStart
  }

  ghost predicate DistinctIds(eggs: seq<PokemonData>)
  {
    forall i, j :: 0 <= i < j < |eggs| ==> eggs[i].Id != eggs[j].Id
  }

  /** An egg put in front of eggs with other ids keeps the ids unique. */
  lemma ConsDistinctIds(x: PokemonData, r: seq<PokemonData>)
    requires DistinctIds(r)
    requires forall e :: e in r ==> e.Id != x.Id
    ensures DistinctIds([x] + r)
  {
    var q := [x] + r;
    forall i, j | 0 <= i < j < |q| ensures q[i].Id != q[j].Id {
      assert q[j] == r[j - 1];
      if i > 0 {
        assert q[i] == r[i - 1];
      } else {
        assert r[j - 1] in r;
      }
    }
  }

  /** The eggs after the first of a queue with unique ids have unique ids, none
      equal to the first one's. */
  lemma TailDistinctIds(q: seq<PokemonData>)
    requires q != [] && DistinctIds(q)
    ensures DistinctIds(q[1..])
    ensures forall e :: e in q[1..] ==> e.Id != q[0].Id
  {
    var t := q[1..];
    forall i, j | 0 <= i < j < |t| ensures t[i].Id != t[j].Id {
      assert t[i] == q[i + 1] && t[j] == q[j + 1];
    }
    forall e | e in t ensures e.Id != q[0].Id {
      var k :| 0 <= k < |t| && t[k] == e;
      assert q[k + 1] == e;
    }
  }

  /** The ids of the incubators, in their order. */
  function IncubatorIds(incs: seq<EggIncubator>): (ids: seq<string>)
    ensures |ids| == |incs|
    ensures forall i :: 0 <= i < |incs| ==> ids[i] == incs[i].Id
  {
    if incs == [] then [] else IncubatorIds(incs[..|incs| - 1]) + [incs[|incs| - 1].Id]
  }

  /** The ids of a prefix are the prefix of the ids. */
  lemma IncubatorIdsTake(incs: seq<EggIncubator>, k: nat)
    requires k <= |incs|
    ensures IncubatorIds(incs[..k]) == IncubatorIds(incs)[..k]
  {
  }

  /** The incubator ids of the remembered records, in their order. */
  function UsageIds(records: seq<IncubatorUsage>): (ids: seq<string>)
    ensures |ids| == |records|
    ensures forall i :: 0 <= i < |records| ==> ids[i] == records[i].IncubatorId
  {
    if records == [] then [] else UsageIds(records[..|records| - 1]) + [records[|records| - 1].IncubatorId]
  }
}
