/** How the two halves of one cycle meet: the race writes its ledger, and the
    genetic algorithm reads it back to choose the parents of the next
    generation. */
module Pipeline {
  import opened Ordering
  import opened Fitness
  import opened Race
  import opened GeneticAlgorithm

  /** A ledger whose records all carry a rank loses nothing to the
      `"rank" in r` filter. */
  lemma {:induction false} RankedOfFullyRanked(ledger: seq<FitnessRecord>)
    requires forall i :: 0 <= i < |ledger| ==> ledger[i].rank.Some?
    ensures Ranked(ledger) == ledger
  {
    if ledger != [] {
      RankedOfFullyRanked(ledger[1..]);
      assert ledger == [ledger[0]] + ledger[1..];
    }
  }

  lemma LedgerRankAt(ranking: seq<Entry>, i: nat)
    requires i < |ranking|
    ensures Ledger(ranking)[i].rank == Some(i + 1)
  {
    assert Ledger(ranking)[i] == LedgerRecord(i + 1, ranking[i]);
  }

  /** The ledger the race writes is already in rank order. */
  lemma LedgerInRankOrder(ranking: seq<Entry>)
    ensures Sort(Ranked(Ledger(ranking)), RankKey) == Ledger(ranking)
  {
    var ledger := Ledger(ranking);
    forall i | 0 <= i < |ledger| ensures ledger[i].rank == Some(i + 1) {
      LedgerRankAt(ranking, i);
    }
    RankedOfFullyRanked(ledger);
    assert SortedBy(ledger, RankKey);
    SortOfSorted(ledger, RankKey);
  }

  /** So the parents read back from the ledger are the first two rows of the
      race ranking; with fewer than two rows the breeding step aborts. */
  lemma ParentsOfLedger(ranking: seq<Entry>)
    ensures |ranking| < 2 ==> SelectParents(Ledger(ranking)) == Err(InsufficientRankedResults)
    ensures |ranking| >= 2 ==> SelectParents(Ledger(ranking)) == Ok((ranking[0].env, ranking[1].env))
  {
    LedgerInRankOrder(ranking);
  }

  /** Over a whole race: the first parent is ahead of every other robot in
      the race order, and the second ahead of every robot but the first. */
  lemma ParentsLeadTheRace(finishStep: seq<Option<int>>, finalX: seq<real>)
    requires |finalX| == |finishStep| && |finishStep| >= 2
    ensures var r := FinalRanking(finishStep, finalX);
            && |r| == |finishStep|
            && SelectParents(Ledger(r)) == Ok((r[0].env, r[1].env))
            && (forall k :: 1 <= k < |r| ==> Ahead(r[0], r[k]))
            && (forall k :: 2 <= k < |r| ==> Ahead(r[1], r[k]))
  {
    var r := FinalRanking(finishStep, finalX);
    RankingCoversEachEnvOnce(finishStep, finalX);
    RankingInRaceOrder(finishStep, finalX);
    ParentsOfLedger(r);
  }
}
