/** Reconciliation depends neither on the order, repetition and division of the blocks between the partitions, nor on
    the fields it does not read. */
module ReconciliationOutcome {
  import opened Common
  import opened Blocks
  import opened Flows
  import opened Reconciliation
  import opened ReconciliationEssence

  /** Both fail, or both report the same balances, the same conflicts in some order, and the same rejections. */
  ghost predicate SameOutcome(r1: Result<Report, Error>, r2: Result<Report, Error>) {
    && (r1.Ok? <==> r2.Ok?)
    && (r1.Ok? ==>
          && r1.value.balances == r2.value.balances
          && (forall x :: x in r1.value.conflicts <==> x in r2.value.conflicts)
          && r1.value.rejectedReceives == r2.value.rejectedReceives
          && r1.value.rejectedGenesis == r2.value.rejectedGenesis)
  }

  lemma BalancesAreUnique(winners: set<Block>, sends: map<string, Block>, m1: map<string, int>, m2: map<string, int>)
    requires AreBalances(m1, winners, sends) && AreBalances(m2, winners, sends)
    ensures m1 == m2
  {
    forall a | a in m1
      ensures m1[a] == m2[a]
    {
      assert m1[a] == BalanceOf(winners, sends, a);
    }
  }

  lemma NegativeExcludesOk(blocks: set<Block>, r1: Result<Report, Error>, r2: Result<Report, Error>)
    requires HashUnique(blocks) && Describes(blocks, r1) && Describes(blocks, r2) && r1.Ok?
    ensures r2.Ok?
  {
    WinnersHashUnique(blocks);
  }

  lemma OneOutcome(blocks: set<Block>, r1: Result<Report, Error>, r2: Result<Report, Error>)
    requires HashUnique(blocks) && Describes(blocks, r1) && Describes(blocks, r2)
    ensures SameOutcome(r1, r2)
  {
    WinnersHashUnique(blocks);
    if r1.Ok? {
      NegativeExcludesOk(blocks, r1, r2);
      BalancesAreUnique(Winners(blocks), SendsByHash(Winners(blocks)), r1.value.balances, r2.value.balances);
    } else if r2.Ok? {
      NegativeExcludesOk(blocks, r2, r1);
    }
  }

  /** Swapping, permuting, repeating or re-splitting the partitions does not change the outcome, and neither do the
      fields that reconciliation does not read, signatures among them: it is enough that blocks with one hash agree on
      account, nonce and effect. */
  lemma OutcomeDependsOnBlockSet(
    a1: seq<Block>, b1: seq<Block>, r1: Result<Report, Error>,
    a2: seq<Block>, b2: seq<Block>, r2: Result<Report, Error>)
    requires Essences(Elements(a1 + b1)) == Essences(Elements(a2 + b2)) && HashesDecide(Elements(a1 + b1))
    requires Reconciles(a1, b1, r1) && Reconciles(a2, b2, r2)
    ensures SameOutcome(r1, r2)
  {
    var e := Essences(Elements(a1 + b1));
    DedupKeepsEssences(a1 + b1);
    DedupKeepsEssences(a2 + b2);
    DedupIsHashUnique(a1 + b1);
    DedupIsHashUnique(a2 + b2);
    OutcomeAlike(Elements(Dedup(a1 + b1)), e, r1);
    OutcomeAlike(Elements(Dedup(a2 + b2)), e, r2);
    OneOutcome(e, r1, r2);
  }
}
