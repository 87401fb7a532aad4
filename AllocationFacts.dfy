/** What the allocation loop guarantees over a whole run. Each run-level fact
    is proved by induction over the incubators, with the effect of a single
    commit on the queue and the commit list proved on its own. */
module AllocationFacts {
  import opened Sequences
  import opened Inventory
  import opened Allocation

  /** The commit list after one more commit of `egg` into `inc`. */
  lemma AssignedEggsSnoc(commits: seq<Assignment>, inc: EggIncubator, egg: PokemonData)
    ensures AssignedEggs(commits + [Assignment(inc, egg)]) == AssignedEggs(commits) + [egg]
  {
    var c := commits + [Assignment(inc, egg)];
    assert c[..|c| - 1] == commits;
  }

  /** A commit moves exactly one egg from the queue to the committed eggs. */
  lemma CommitQueueAccounting(commits: seq<Assignment>, queue: seq<PokemonData>, inc: EggIncubator, egg: PokemonData)
    requires egg in queue
    ensures multiset(Remove(queue, egg)) + multiset(AssignedEggs(commits + [Assignment(inc, egg)]))
            == multiset(queue) + multiset(AssignedEggs(commits))
    ensures forall e :: e in Remove(queue, egg) ==> e in queue
  {
    AssignedEggsSnoc(commits, inc, egg);
    RemoveMembers(queue, egg);
  }

  /** Every egg the run commits came off the queue, and the queue left over is
      the starting queue minus exactly those eggs. */
  lemma {:induction false} AllocateQueueAccounting(incubators: seq<EggIncubator>, multiple: bool, queue: seq<PokemonData>,
                                                   ctx: Context, commit: (string, nat) -> real)
    ensures var r := Allocate(incubators, multiple, queue, ctx, commit);
      && multiset(queue) == multiset(r.Queue) + multiset(AssignedEggs(r.Commits))
      && (forall e :: e in r.Queue ==> e in queue)
  {
    if incubators != [] {
      var n := |incubators| - 1;
      var inc := incubators[n];
      var a := Allocate(incubators[..n], multiple, queue, ctx, commit);
      var r := Step(a, inc, multiple, ctx, commit);
      AllocateQueueAccounting(incubators[..n], multiple, queue, ctx, commit);
      if r.Commits != a.Commits {
        CommitQueueAccounting(a.Commits, a.Queue, inc, Candidate(inc, multiple, a.Queue).value);
      }
    }
  }

  /** The egg queue stays sorted by distance through every removal. */
  lemma {:induction false} AllocateKeepsQueueSorted(incubators: seq<EggIncubator>, multiple: bool, queue: seq<PokemonData>,
                                                    ctx: Context, commit: (string, nat) -> real)
    requires SortedBy(queue, Distance)
    ensures SortedBy(Allocate(incubators, multiple, queue, ctx, commit).Queue, Distance)
  {
    if incubators != [] {
      var n := |incubators| - 1;
      var a := Allocate(incubators[..n], multiple, queue, ctx, commit);
      var r := Step(a, incubators[n], multiple, ctx, commit);
      AllocateKeepsQueueSorted(incubators[..n], multiple, queue, ctx, commit);
      if r.Commits != a.Commits {
        RemoveKeepsSorted(a.Queue, Candidate(incubators[n], multiple, a.Queue).value, Distance);
      }
    }
  }

  /** On a queue with unique ids, List.Remove takes away the only egg with that id. */
  lemma {:induction false} RemoveDistinctEgg(q: seq<PokemonData>, egg: PokemonData)
    requires DistinctIds(q) && egg in q
    ensures DistinctIds(Remove(q, egg))
    ensures forall e :: e in Remove(q, egg) ==> e.Id != egg.Id
  {
    var t := q[1..];
    TailDistinctIds(q);
    if q[0] != egg {
      assert q == [q[0]] + t;
      assert egg in t;
      RemoveDistinctEgg(t, egg);
      RemoveMembers(t, egg);
      ConsDistinctIds(q[0], Remove(t, egg));
      assert Remove(q, egg) == [q[0]] + Remove(t, egg);
    }
  }

  /** No egg is committed twice, and no committed egg shares its id with an egg
      still in the queue. */
  ghost predicate EggsOnce(commits: seq<Assignment>, queue: seq<PokemonData>)
  {
    && DistinctIds(AssignedEggs(commits))
    && DistinctIds(queue)
    && forall c, e :: c in commits && e in queue ==> c.Egg.Id != e.Id
  }

  /** Committing an egg of the queue and removing it keeps every egg used once. */
  lemma CommitKeepsEggsOnce(commits: seq<Assignment>, queue: seq<PokemonData>, inc: EggIncubator, egg: PokemonData)
    requires EggsOnce(commits, queue) && egg in queue
    ensures EggsOnce(commits + [Assignment(inc, egg)], Remove(queue, egg))
  {
    var c' := commits + [Assignment(inc, egg)];
    var q' := Remove(queue, egg);
    RemoveDistinctEgg(queue, egg);
    RemoveMembers(queue, egg);
    AssignedEggsSnoc(commits, inc, egg);
    var eggs := AssignedEggs(c');
    forall j, k | 0 <= j < k < |eggs| ensures eggs[j].Id != eggs[k].Id {
      if k == |eggs| - 1 {
        assert commits[j] in commits;
        assert eggs[j] == commits[j].Egg;
      } else {
        assert eggs[j] == AssignedEggs(commits)[j] && eggs[k] == AssignedEggs(commits)[k];
      }
    }
    forall c, e | c in c' && e in q' ensures c.Egg.Id != e.Id {
      if c in commits {
        assert e in queue;
      } else {
        assert c == Assignment(inc, egg);
      }
    }
  }

  /** No egg is put into an incubator twice in a run, given that egg ids are unique. */
  lemma {:induction false} AllocateAssignsEachEggOnce(incubators: seq<EggIncubator>, multiple: bool, queue: seq<PokemonData>,
                                                      ctx: Context, commit: (string, nat) -> real)
    requires DistinctIds(queue)
    ensures var r := Allocate(incubators, multiple, queue, ctx, commit);
      EggsOnce(r.Commits, r.Queue)
  {
    if incubators != [] {
      var n := |incubators| - 1;
      var inc := incubators[n];
      var a := Allocate(incubators[..n], multiple, queue, ctx, commit);
      var r := Step(a, inc, multiple, ctx, commit);
      AllocateAssignsEachEggOnce(incubators[..n], multiple, queue, ctx, commit);
      if r.Commits != a.Commits {
        CommitKeepsEggsOnce(a.Commits, a.Queue, inc, Candidate(inc, multiple, a.Queue).value);
      }
    }
  }

  /** Every commit is made for an idle incubator of the list, with an egg of the
      starting queue that both the 10 km gate and the minimum-km rule allow. */
  ghost predicate CommitsFollowRules(commits: seq<Assignment>, incubators: seq<EggIncubator>, queue: seq<PokemonData>, ctx: Context)
  {
    forall c :: c in commits ==>
      && c.Incubator in incubators && IsIdle(c.Incubator) && c.Egg in queue
      && TenKmGateAllows(c.Egg, ctx) && MinKmAllows(c.Incubator, c.Egg, ctx)
  }

  lemma {:induction false} AllocateRespectsRules(incubators: seq<EggIncubator>, multiple: bool, queue: seq<PokemonData>,
                                                 ctx: Context, commit: (string, nat) -> real)
    ensures CommitsFollowRules(Allocate(incubators, multiple, queue, ctx, commit).Commits, incubators, queue, ctx)
  {
    if incubators != [] {
      var n := |incubators| - 1;
      var inc := incubators[n];
      var a := Allocate(incubators[..n], multiple, queue, ctx, commit);
      var r := Step(a, inc, multiple, ctx, commit);
      AllocateRespectsRules(incubators[..n], multiple, queue, ctx, commit);
      AllocateQueueAccounting(incubators[..n], multiple, queue, ctx, commit);
      PrefixMembers(incubators[..n], incubators);
      if r.Commits != a.Commits {
        var egg := Candidate(inc, multiple, a.Queue).value;
        assert r.Commits == a.Commits + [Assignment(inc, egg)];
        assert egg in queue;
        forall c | c in r.Commits
          ensures && c.Incubator in incubators && IsIdle(c.Incubator) && c.Egg in queue
                  && TenKmGateAllows(c.Egg, ctx) && MinKmAllows(c.Incubator, c.Egg, ctx)
        {
          if c !in a.Commits {
            assert c == Assignment(inc, egg);
          }
        }
      }
    }
  }

  /** The 10 km gate over a run: below level 20, with some unused egg shorter than
      10 km, no 10 km egg is committed. */
  lemma TenKmEggsWaitForLevel(incubators: seq<EggIncubator>, multiple: bool, queue: seq<PokemonData>,
                              ctx: Context, commit: (string, nat) -> real)
    requires ctx.Level < TenKmLevel && !ctx.OnlyTenKmEggs
    ensures forall c :: c in Allocate(incubators, multiple, queue, ctx, commit).Commits ==> c.Egg.EggKmWalkedTarget != TenKm
  {
    AllocateRespectsRules(incubators, multiple, queue, ctx, commit);
  }

  /** The minimum-km rule over a run: a limited incubator never receives an egg
      whose target is below the setting. */
  lemma LimitedIncubatorsSkipShortEggs(incubators: seq<EggIncubator>, multiple: bool, queue: seq<PokemonData>,
                                       ctx: Context, commit: (string, nat) -> real)
    ensures forall c :: c in Allocate(incubators, multiple, queue, ctx, commit).Commits ==>
      IsLimited(c.Incubator) ==> c.Egg.EggKmWalkedTarget >= ctx.MinKm
  {
    AllocateRespectsRules(incubators, multiple, queue, ctx, commit);
  }

  /** Head or tail: an incubator that prefers the shortest egg got one no longer
      than any egg still queued, and every other incubator one no shorter. */
  ghost predicate EndsPicked(commits: seq<Assignment>, queue: seq<PokemonData>, multiple: bool)
  {
    forall c, e :: c in commits && e in queue ==>
      if PrefersShortest(c.Incubator, multiple) then Distance(c.Egg) <= Distance(e) else Distance(c.Egg) >= Distance(e)
  }

  /** Committing the candidate of a sorted queue keeps the head-or-tail property. */
  lemma CommitPicksEnd(commits: seq<Assignment>, queue: seq<PokemonData>, inc: EggIncubator, multiple: bool)
    requires SortedBy(queue, Distance) && queue != []
    requires EndsPicked(commits, queue, multiple)
    ensures var egg := Candidate(inc, multiple, queue).value;
      EndsPicked(commits + [Assignment(inc, egg)], Remove(queue, egg), multiple)
  {
    var egg := Candidate(inc, multiple, queue).value;
    var c' := commits + [Assignment(inc, egg)];
    RemoveMembers(queue, egg);
    forall c, e | c in c' && e in Remove(queue, egg)
      ensures if PrefersShortest(c.Incubator, multiple) then Distance(c.Egg) <= Distance(e) else Distance(c.Egg) >= Distance(e)
    {
      assert e in queue;
      if c !in commits {
        assert c == Assignment(inc, egg);
        var k :| 0 <= k < |queue| && queue[k] == e;
        if PrefersShortest(inc, multiple) {
          assert egg == queue[0];
        } else {
          assert egg == queue[|queue| - 1];
        }
      }
    }
  }

  /** Head or tail over a run, on a queue sorted by distance. */
  lemma {:induction false} AllocatePicksShortestOrLongest(incubators: seq<EggIncubator>, multiple: bool, queue: seq<PokemonData>,
                                                          ctx: Context, commit: (string, nat) -> real)
    requires SortedBy(queue, Distance)
    ensures var r := Allocate(incubators, multiple, queue, ctx, commit);
      EndsPicked(r.Commits, r.Queue, multiple)
  {
    if incubators != [] {
      var n := |incubators| - 1;
      var inc := incubators[n];
      var a := Allocate(incubators[..n], multiple, queue, ctx, commit);
      var r := Step(a, inc, multiple, ctx, commit);
      AllocatePicksShortestOrLongest(incubators[..n], multiple, queue, ctx, commit);
      AllocateKeepsQueueSorted(incubators[..n], multiple, queue, ctx, commit);
      if r.Commits != a.Commits {
        CommitPicksEnd(a.Commits, a.Queue, inc, multiple);
      }
    }
  }

  /** Records and status events go in lockstep: one of each per incubator that
      holds or receives an egg, with the same incubator and egg ids; a commit
      always adds one. */
  lemma {:induction false} AllocateRecordsMatchEvents(incubators: seq<EggIncubator>, multiple: bool, queue: seq<PokemonData>,
                                                      ctx: Context, commit: (string, nat) -> real)
    ensures var r := Allocate(incubators, multiple, queue, ctx, commit);
      && |r.Commits| <= |r.Records| == |r.Events| <= |incubators|
      && forall j :: 0 <= j < |r.Records| ==>
           && r.Events[j].EggIncubatorStatus?
           && r.Events[j].IncubatorId == r.Records[j].IncubatorId
           && r.Events[j].PokemonId == r.Records[j].PokemonId
  {
    if incubators != [] {
      var n := |incubators| - 1;
      var a := Allocate(incubators[..n], multiple, queue, ctx, commit);
      var r := Step(a, incubators[n], multiple, ctx, commit);
      AllocateRecordsMatchEvents(incubators[..n], multiple, queue, ctx, commit);
      forall j | 0 <= j < |a.Records| ensures r.Events[j] == a.Events[j] && r.Records[j] == a.Records[j] {
        assert r.Records[..|a.Records|][j] == r.Records[j];
        assert r.Events[..|a.Events|][j] == r.Events[j];
      }
      if r.Commits != a.Commits {
        assert |r.Commits| == |a.Commits| + 1;
      }
    }
  }

  /** Each incubator contributes at most one record, in incubator order: the
      records' incubator ids are the incubators' ids with some left out. */
  lemma {:induction false} AllocateRecordsInIncubatorOrder(incubators: seq<EggIncubator>, multiple: bool, queue: seq<PokemonData>,
                                                           ctx: Context, commit: (string, nat) -> real)
    ensures IsSubsequence(UsageIds(Allocate(incubators, multiple, queue, ctx, commit).Records), IncubatorIds(incubators))
  {
    if incubators != [] {
      var n := |incubators| - 1;
      var inc := incubators[n];
      var a := Allocate(incubators[..n], multiple, queue, ctx, commit);
      var r := Step(a, inc, multiple, ctx, commit);
      AllocateRecordsInIncubatorOrder(incubators[..n], multiple, queue, ctx, commit);
      IncubatorIdsSnoc(incubators);
      SubsequenceSnoc(UsageIds(a.Records), IncubatorIds(incubators[..n]), inc.Id);
      if |r.Records| > |a.Records| {
        assert r.Records[..|r.Records| - 1] == a.Records;
        assert UsageIds(r.Records) == UsageIds(a.Records) + [inc.Id];
      } else {
        assert r.Records == a.Records;
      }
    }
  }

  /** The committed incubators after one more commit into `inc`. */
  lemma CommittedIncubatorsSnoc(commits: seq<Assignment>, inc: EggIncubator, egg: PokemonData)
    ensures IncubatorIds(CommittedIncubators(commits + [Assignment(inc, egg)]))
            == IncubatorIds(CommittedIncubators(commits)) + [inc.Id]
  {
    var c := commits + [Assignment(inc, egg)];
    assert c[..|c| - 1] == commits;
    var ci := CommittedIncubators(c);
    assert ci[..|ci| - 1] == CommittedIncubators(commits);
  }

  /** The incubator ids of a list grown by one incubator. */
  lemma IncubatorIdsSnoc(incubators: seq<EggIncubator>)
    requires incubators != []
    ensures IncubatorIds(incubators) == IncubatorIds(incubators[..|incubators| - 1]) + [incubators[|incubators| - 1].Id]
  {
  }

  /** Each incubator gets at most one commit, in incubator order: the ids of
      the committed incubators are the incubators' ids with some left out. */
  lemma {:induction false} AllocateCommitsInIncubatorOrder(incubators: seq<EggIncubator>, multiple: bool, queue: seq<PokemonData>,
                                                           ctx: Context, commit: (string, nat) -> real)
    ensures IsSubsequence(IncubatorIds(CommittedIncubators(Allocate(incubators, multiple, queue, ctx, commit).Commits)),
                          IncubatorIds(incubators))
  {
    if incubators != [] {
      var n := |incubators| - 1;
      var inc := incubators[n];
      var a := Allocate(incubators[..n], multiple, queue, ctx, commit);
      var r := Step(a, inc, multiple, ctx, commit);
      AllocateCommitsInIncubatorOrder(incubators[..n], multiple, queue, ctx, commit);
      IncubatorIdsSnoc(incubators);
      SubsequenceSnoc(IncubatorIds(CommittedIncubators(a.Commits)), IncubatorIds(incubators[..n]), inc.Id);
      if r.Commits != a.Commits {
        CommittedIncubatorsSnoc(a.Commits, inc, Candidate(inc, multiple, a.Queue).value);
      }
    }
  }

  /** No incubator is committed twice in a run, given that incubator ids are unique. */
  lemma OneCommitPerIncubator(incubators: seq<EggIncubator>, multiple: bool, queue: seq<PokemonData>,
                              ctx: Context, commit: (string, nat) -> real)
    requires Distinct(IncubatorIds(incubators))
    ensures Distinct(IncubatorIds(CommittedIncubators(Allocate(incubators, multiple, queue, ctx, commit).Commits)))
  {
    var r := Allocate(incubators, multiple, queue, ctx, commit);
    AllocateCommitsInIncubatorOrder(incubators, multiple, queue, ctx, commit);
    SubsequenceDistinct(IncubatorIds(CommittedIncubators(r.Commits)), IncubatorIds(incubators));
  }

  /** Every occupied incubator is mirrored and every commit is recorded. */
  ghost predicate RecordsCover(records: seq<IncubatorUsage>, commits: seq<Assignment>, incubators: seq<EggIncubator>)
  {
    && (forall inc :: inc in incubators && !IsIdle(inc) ==> IncubatorUsage(inc.Id, inc.PokemonId) in records)
    && (forall c :: c in commits ==> IncubatorUsage(c.Incubator.Id, c.Egg.Id) in records)
  }

  /** Records that only grow keep covering, and cover one more incubator
      once its mirror record is among them. */
  lemma CoverGrow(records: seq<IncubatorUsage>, records': seq<IncubatorUsage>, commits: seq<Assignment>,
                  incubators: seq<EggIncubator>)
    requires incubators != []
    requires RecordsCover(records, commits, incubators[..|incubators| - 1])
    requires |records| <= |records'| && records'[..|records|] == records
    requires var inc := incubators[|incubators| - 1];
      !IsIdle(inc) ==> IncubatorUsage(inc.Id, inc.PokemonId) in records'
    ensures RecordsCover(records', commits, incubators)
  {
    PrefixMembers(records, records');
    var n := |incubators| - 1;
    forall x | x in incubators && !IsIdle(x) ensures IncubatorUsage(x.Id, x.PokemonId) in records' {
      if x != incubators[n] {
        var k :| 0 <= k < |incubators| && incubators[k] == x;
        assert incubators[..n][k] == x;
      }
    }
  }

  /** A commit whose record is present keeps the records covering. */
  lemma CoverCommit(records: seq<IncubatorUsage>, commits: seq<Assignment>, incubators: seq<EggIncubator>,
                    inc: EggIncubator, egg: PokemonData)
    requires RecordsCover(records, commits, incubators)
    requires IncubatorUsage(inc.Id, egg.Id) in records
    ensures RecordsCover(records, commits + [Assignment(inc, egg)], incubators)
  {
  }

  lemma {:induction false} AllocateRecordsCoverIncubators(incubators: seq<EggIncubator>, multiple: bool, queue: seq<PokemonData>,
                                                          ctx: Context, commit: (string, nat) -> real)
    ensures var r := Allocate(incubators, multiple, queue, ctx, commit);
      RecordsCover(r.Records, r.Commits, incubators)
  {
    if incubators != [] {
      var n := |incubators| - 1;
      var inc := incubators[n];
      var a := Allocate(incubators[..n], multiple, queue, ctx, commit);
      var r := Step(a, inc, multiple, ctx, commit);
      AllocateRecordsCoverIncubators(incubators[..n], multiple, queue, ctx, commit);
      assert !IsIdle(inc) ==> IncubatorUsage(inc.Id, inc.PokemonId) in r.Records by {
        if !IsIdle(inc) {
          assert r.Records[|a.Records|] == IncubatorUsage(inc.Id, inc.PokemonId);
        }
      }
      CoverGrow(a.Records, r.Records, a.Commits, incubators);
      if r.Commits != a.Commits {
        var egg := Candidate(inc, multiple, a.Queue).value;
        assert r.Records[|a.Records|] == IncubatorUsage(inc.Id, egg.Id);
        CoverCommit(r.Records, a.Commits, incubators, inc, egg);
      }
    }
  }

  /** At most one record per incubator, given that incubator ids are unique. */
  lemma OneRecordPerIncubator(incubators: seq<EggIncubator>, multiple: bool, queue: seq<PokemonData>,
                              ctx: Context, commit: (string, nat) -> real)
    requires Distinct(IncubatorIds(incubators))
    ensures Distinct(UsageIds(Allocate(incubators, multiple, queue, ctx, commit).Records))
  {
    var r := Allocate(incubators, multiple, queue, ctx, commit);
    AllocateRecordsInIncubatorOrder(incubators, multiple, queue, ctx, commit);
    SubsequenceDistinct(UsageIds(r.Records), IncubatorIds(incubators));
  }

  /** `r` only appends to the commits, records and events of `a`. */
  ghost predicate Extends(a: Allocation, r: Allocation)
  {
    a.Commits <= r.Commits && a.Records <= r.Records && a.Events <= r.Events
  }

  lemma ExtendsTrans(a: Allocation, b: Allocation, c: Allocation)
    requires Extends(a, b) && Extends(b, c)
    ensures Extends(a, c)
  {
    PrefixTrans(a.Commits, b.Commits, c.Commits);
    PrefixTrans(a.Records, b.Records, c.Records);
    PrefixTrans(a.Events, b.Events, c.Events);
  }

  /** One step only appends to the commits, records and events. */
  lemma StepExtends(a: Allocation, inc: EggIncubator, multiple: bool, ctx: Context, commit: (string, nat) -> real)
    ensures Extends(a, Step(a, inc, multiple, ctx, commit))
  {
    var r := Step(a, inc, multiple, ctx, commit);
    if r.Commits != a.Commits {
      assert (a.Commits + [Assignment(inc, Candidate(inc, multiple, a.Queue).value)])[..|a.Commits|] == a.Commits;
    }
  }

  /** Stopping the loop early only cuts its effects short: the commits, records
      and events of the first `m` incubators begin those of the whole list. */
  lemma {:induction false} AllocatePrefix(incubators: seq<EggIncubator>, m: nat, multiple: bool, queue: seq<PokemonData>,
                                          ctx: Context, commit: (string, nat) -> real)
    requires m <= |incubators|
    ensures Extends(Allocate(incubators[..m], multiple, queue, ctx, commit), Allocate(incubators, multiple, queue, ctx, commit))
    decreases |incubators|
  {
    if m < |incubators| {
      var n := |incubators| - 1;
      assert incubators[..n][..m] == incubators[..m];
      AllocatePrefix(incubators[..n], m, multiple, queue, ctx, commit);
      var a := Allocate(incubators[..n], multiple, queue, ctx, commit);
      StepExtends(a, incubators[n], multiple, ctx, commit);
      ExtendsTrans(Allocate(incubators[..m], multiple, queue, ctx, commit), a, Allocate(incubators, multiple, queue, ctx, commit));
    } else {
      assert incubators[..m] == incubators;
    }
  }
}
