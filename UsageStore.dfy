/** The remembered incubator usages: their equality, the order-sensitive
    comparison that decides whether to save, and the stored file as a value
    (`None` when no file exists, `Some(list)` once one has been written). */
module UsageStore {
  import opened Sequences
  import opened Inventory

  /** IncubatorUsage.Equals: same incubator id and same pokemon id. */
  predicate UsageEquals(a: IncubatorUsage, other: IncubatorUsage)
  {
    other.IncubatorId == a.IncubatorId && other.PokemonId == a.PokemonId
  }

  /** Two usages are Equal exactly when they are the same record. */
  lemma UsageEqualsIsEquality(a: IncubatorUsage, other: IncubatorUsage)
    ensures UsageEquals(a, other) <==> a == other
  {
  }

  /** Enumerable.SequenceEqual under UsageEquals: same length, pairwise equal. */
  function SequenceEqual(a: seq<IncubatorUsage>, b: seq<IncubatorUsage>): (same: bool)
    ensures same <==> a == b
  {
    if a == [] || b == [] then a == b
    else UsageEquals(a[0], b[0]) && SequenceEqual(a[1..], b[1..])
  }

  /** Reading the remembered list: no file reads as the empty list. */
  function Load(file: Option<seq<IncubatorUsage>>): (records: seq<IncubatorUsage>)
    ensures file.None? ==> records == []
  {
    match file
    case None => []
    case Some(list) => list
  }

  /** Writing overwrites the whole file with the list. */
  function Save(records: seq<IncubatorUsage>): (file: Option<seq<IncubatorUsage>>)
    ensures Load(file) == records
  {
    Some(records)
  }

  /** The list to write at the end of a run, if any: the new list exactly
      when it differs, as an ordered sequence, from the remembered one. */
  function SaveDecision(newRecords: seq<IncubatorUsage>, remembered: seq<IncubatorUsage>): (write: Option<seq<IncubatorUsage>>)
    ensures write.Some? <==> newRecords != remembered
    ensures write.Some? ==> write.value == newRecords
  {
    if SequenceEqual(newRecords, remembered) then None else Some(newRecords)
  }

  /** The stored file after acting on a save decision. */
  function Persist(file: Option<seq<IncubatorUsage>>, write: Option<seq<IncubatorUsage>>): Option<seq<IncubatorUsage>>
  {
    match write
    case None => file
    case Some(list) => Save(list)
  }

  /** After a completed run the store holds the new list, whether or not it was written,
      and an unchanged list leaves the file as it was. */
  lemma StoreHoldsNewRecords(file: Option<seq<IncubatorUsage>>, newRecords: seq<IncubatorUsage>)
    ensures Load(Persist(file, SaveDecision(newRecords, Load(file)))) == newRecords
    ensures newRecords == Load(file) ==> Persist(file, SaveDecision(newRecords, Load(file))) == file
  {
  }

  /** The comparison is order-sensitive: the same two usages listed in the
      other order are written again. */
  lemma ReorderedUsagesAreWritten(u: IncubatorUsage, v: IncubatorUsage)
    requires u != v
    ensures multiset([u, v]) == multiset([v, u])
    ensures SaveDecision([u, v], [v, u]) == Some([u, v])
  {
    assert [u, v][0] != [v, u][0];
  }
}
