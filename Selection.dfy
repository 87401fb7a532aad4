/** The inputs of the allocation loop: the incubators worth considering, in
    the order they are tried, the queue of unused eggs, shortest first, and
    the "only 10 km eggs" flag. */
module Selection {
  import opened Sequences
  import opened Inventory

  /** An incubator is worth considering if it is unlimited or has a use left. */
  predicate Eligible(inc: EggIncubator)
  {
    inc.UsesRemaining > 0 || IsUnlimited(inc)
  }

  /** The sort key of `OrderByDescending(IsUnlimited)`: unlimited ranks first. */
  function UnlimitedRank(inc: EggIncubator): real
  {
    if IsUnlimited(inc) then 0.0 else 1.0
  }

  /** The eligible incubators, unlimited ones first, each group in inventory order. */
  function OrderedIncubators(incubators: seq<EggIncubator>): (r: seq<EggIncubator>)
    ensures |r| <= |incubators|
    ensures forall x :: x in r ==> x in incubators && Eligible(x)
  {
    FilterMembers(incubators, Eligible);
    SortByMembers(Filter(incubators, Eligible), UnlimitedRank);
    var r := SortBy(Filter(incubators, Eligible), UnlimitedRank);
    assert |multiset(r)| == |Filter(incubators, Eligible)|;
    r
  }

  /** Every incubator tried is an eligible one of the inventory and every
      eligible one is tried, as often as it is listed. */
  lemma OrderedIncubatorsMembers(incubators: seq<EggIncubator>)
    ensures forall inc :: inc in OrderedIncubators(incubators) <==> inc in incubators && Eligible(inc)
    ensures multiset(OrderedIncubators(incubators)) == multiset(Filter(incubators, Eligible))
  {
    FilterMembers(incubators, Eligible);
    SortByMembers(Filter(incubators, Eligible), UnlimitedRank);
  }

  predicate IsUnused(egg: PokemonData)
  {
    egg.EggIncubatorId == ""
  }

  /** The eggs that are in no incubator, ascending by the distance they still need. */
  function UnusedEggQueue(eggs: seq<PokemonData>): (q: seq<PokemonData>)
    ensures |q| <= |eggs|
    ensures forall e :: e in q ==> e in eggs && IsUnused(e)
  {
    FilterMembers(eggs, IsUnused);
    SortByMembers(Filter(eggs, IsUnused), Distance);
    var r := SortBy(Filter(eggs, IsUnused), Distance);
    assert |multiset(r)| == |Filter(eggs, IsUnused)|;
    r
  }

  /** The queue holds exactly the unused eggs, each as often as in the inventory. */
  lemma UnusedEggQueueMembers(eggs: seq<PokemonData>)
    ensures forall e :: e in UnusedEggQueue(eggs) <==> e in eggs && IsUnused(e)
    ensures forall e :: multiset(UnusedEggQueue(eggs))[e] == if IsUnused(e) then multiset(eggs)[e] else 0
  {
    FilterMultiset(eggs, IsUnused);
    FilterMembers(eggs, IsUnused);
    SortByMembers(Filter(eggs, IsUnused), Distance);
  }

  /** Filtering keeps the egg ids unique. */
  lemma {:induction false} FilterDistinctIds(s: seq<PokemonData>, p: PokemonData -> bool)
    requires DistinctIds(s)
    ensures DistinctIds(Filter(s, p))
  {
    if s != [] {
      TailDistinctIds(s);
      FilterDistinctIds(s[1..], p);
      if p(s[0]) {
        FilterMembers(s[1..], p);
        ConsDistinctIds(s[0], Filter(s[1..], p));
      }
    }
  }

  /** With unique ids no egg is listed twice. */
  lemma {:induction false} DistinctIdsCount(s: seq<PokemonData>, x: PokemonData)
    requires DistinctIds(s)
    ensures multiset(s)[x] <= 1
  {
    if s != [] {
      TailDistinctIds(s);
      DistinctIdsCount(s[1..], x);
      assert s == [s[0]] + s[1..];
      assert s[0] == x ==> x !in s[1..];
    }
  }

  /** An element at two indices is counted at least twice. */
  lemma TwoIndicesCount<T>(b: seq<T>, i: nat, j: nat)
    requires i < j < |b|
    ensures b[i] == b[j] ==> multiset(b)[b[i]] >= 2
  {
    assert b == b[..j] + b[j..];
    assert b[..j][i] == b[i] && b[j..][0] == b[j];
    assert multiset(b) == multiset(b[..j]) + multiset(b[j..]);
  }

  /** Reordering keeps the egg ids unique. */
  lemma PermutationDistinctIds(a: seq<PokemonData>, b: seq<PokemonData>)
    requires multiset(a) == multiset(b) && DistinctIds(a)
    ensures DistinctIds(b)
  {
    forall i, j | 0 <= i < j < |b| ensures b[i].Id != b[j].Id {
      TwoIndicesCount(b, i, j);
      DistinctIdsCount(a, b[i]);
      assert b[i] in multiset(a) && b[j] in multiset(a);
      var i' :| 0 <= i' < |a| && a[i'] == b[i];
      var j' :| 0 <= j' < |a| && a[j'] == b[j];
    }
  }

  /** Eggs with unique ids make a queue with unique ids. */
  lemma UnusedEggQueueDistinctIds(eggs: seq<PokemonData>)
    requires DistinctIds(eggs)
    ensures DistinctIds(UnusedEggQueue(eggs))
  {
    FilterDistinctIds(eggs, IsUnused);
    PermutationDistinctIds(Filter(eggs, IsUnused), UnusedEggQueue(eggs));
  }

  predicate IsShortEgg(egg: PokemonData)
  {
    egg.EggKmWalkedTarget < 10.0
  }

  /** True when no unused egg has a target below 10 km. */
  function OnlyTenKmEggs(queue: seq<PokemonData>): (only: bool)
    ensures only <==> forall e :: e in queue ==> e.EggKmWalkedTarget >= 10.0
  {
    FirstWhere(queue, IsShortEgg).None?
  }

  /** No limited incubator comes before an unlimited one. */
  lemma OrderedIncubatorsUnlimitedFirst(incubators: seq<EggIncubator>)
    ensures var r := OrderedIncubators(incubators);
      forall i, j :: 0 <= i < j < |r| && IsUnlimited(r[j]) ==> IsUnlimited(r[i])
  {
    var r := OrderedIncubators(incubators);
    SortBySorted(Filter(incubators, Eligible), UnlimitedRank);
    forall i, j | 0 <= i < j < |r| && IsUnlimited(r[j]) ensures IsUnlimited(r[i]) {
      assert UnlimitedRank(r[i]) <= UnlimitedRank(r[j]);
    }
  }

  /** The sort is stable: unlimited incubators keep their inventory order among
      themselves, and so do limited ones. */
  lemma OrderedIncubatorsStable(incubators: seq<EggIncubator>)
    ensures Filter(OrderedIncubators(incubators), IsUnlimited) == Filter(Filter(incubators, Eligible), IsUnlimited)
    ensures Filter(OrderedIncubators(incubators), IsLimited) == Filter(Filter(incubators, Eligible), IsLimited)
  {
    var e := Filter(incubators, Eligible);
    SortByStable(e, UnlimitedRank, IsUnlimited, 0.0);
    SortByStable(e, UnlimitedRank, IsLimited, 1.0);
  }

  /** An unlimited incubator inserted by rank goes in front. */
  lemma InsertUnlimited(x: EggIncubator, u: seq<EggIncubator>, l: seq<EggIncubator>)
    requires IsUnlimited(x)
    ensures Insert(x, u + l, UnlimitedRank) == ([x] + u) + l
  {
    assert u + l == [] || UnlimitedRank(x) <= UnlimitedRank((u + l)[0]);
    ConcatAssoc([x], u, l);
  }

  /** A limited incubator inserted by rank goes after the unlimited ones and
      before the limited ones. */
  lemma InsertLimited(x: EggIncubator, u: seq<EggIncubator>, l: seq<EggIncubator>)
    requires IsLimited(x)
    requires forall y :: y in u ==> IsUnlimited(y)
    requires forall y :: y in l ==> IsLimited(y)
    ensures Insert(x, u + l, UnlimitedRank) == u + ([x] + l)
  {
    forall i | 0 <= i < |u| ensures UnlimitedRank(u[i]) < UnlimitedRank(x) {
      assert u[i] in u;
    }
    if l != [] {
      assert l[0] in l;
    }
    InsertPast(x, u, l, UnlimitedRank);
  }

  /** The sort by rank is a stable partition: first the unlimited incubators,
      then the limited ones, each group in its original order. */
  lemma {:induction false} RankSortPartition(e: seq<EggIncubator>)
    ensures SortBy(e, UnlimitedRank) == Filter(e, IsUnlimited) + Filter(e, IsLimited)
  {
    if e != [] {
      var x, t := e[0], e[1..];
      var u, l := Filter(t, IsUnlimited), Filter(t, IsLimited);
      RankSortPartition(t);
      assert SortBy(e, UnlimitedRank) == Insert(x, u + l, UnlimitedRank);
      if IsUnlimited(x) {
        InsertUnlimited(x, u, l);
        assert Filter(e, IsUnlimited) == [x] + u;
        assert Filter(e, IsLimited) == l;
      } else {
        FilterMembers(t, IsUnlimited);
        FilterMembers(t, IsLimited);
        InsertLimited(x, u, l);
        assert Filter(e, IsUnlimited) == u;
        assert Filter(e, IsLimited) == [x] + l;
      }
    }
  }

  /** The incubators tried are exactly the eligible unlimited ones in inventory
      order, followed by the eligible limited ones in inventory order. */
  lemma OrderedIncubatorsPartition(incubators: seq<EggIncubator>)
    ensures var e := Filter(incubators, Eligible);
      OrderedIncubators(incubators) == Filter(e, IsUnlimited) + Filter(e, IsLimited)
  {
    RankSortPartition(Filter(incubators, Eligible));
  }

  /** The queue is ascending by distance. */
  lemma UnusedEggQueueSorted(eggs: seq<PokemonData>)
    ensures SortedBy(UnusedEggQueue(eggs), Distance)
  {
    SortBySorted(Filter(eggs, IsUnused), Distance);
  }

  /** Eggs of equal distance keep their inventory order (OrderBy is stable);
      `sameDistance` selects the eggs whose distance is `km`. */
  lemma UnusedEggQueueStable(eggs: seq<PokemonData>, km: real, sameDistance: PokemonData -> bool)
    requires forall e :: sameDistance(e) <==> Distance(e) == km
    ensures Filter(UnusedEggQueue(eggs), sameDistance) == Filter(Filter(eggs, IsUnused), sameDistance)
  {
    SortByStable(Filter(eggs, IsUnused), Distance, sameDistance, km);
  }
}
