/** Reconciliation agrees with honest local chains. */
module HonestReconciliation {
  import opened Common
  import Sums
  import Ordering
  import opened Blocks
  import opened AccountChain
  import opened Flows
  import opened Network
  import opened Reconciliation
  import opened ReconciliationLaws

  /** In an honest run every block stands alone at its account and nonce, so every block wins. */
  lemma HonestBlocksAllWin(c: Crypto, net: Network)
    requires c.Sound() && Sane(c, net)
    ensures HashUnique(Emitted(net)) && Winners(Emitted(net)) == Emitted(net) && ConflictsOf(Emitted(net)) == {}
  {
    EmittedHashUnique(c, net);
    UncontestedAllWin(Emitted(net));
  }

  lemma {:induction false} NothingRejected(sends: map<string, Block>, ws: seq<Block>)
    requires forall w :: w in ws ==> (w.kind.Receive? ==> Accepted(sends, w)) && (w.kind.Open? ==> w.nonce == 1)
    ensures ReceiveRejections(sends, ws) == [] && GenesisRejections(ws) == []
  {
    if ws != [] {
      NothingRejected(sends, ws[..|ws| - 1]);
    }
  }

  lemma {:induction false} WinnersAtAreWinners(blocks: set<Block>, keys: seq<Key>)
    ensures forall w :: w in WinnersAt(blocks, keys) ==> w in blocks
  {
    if keys != [] {
      WinnersAtAreWinners(blocks, keys[..|keys| - 1]);
    }
  }

  /** Every emitted block moves its account or is accepted as it stands. */
  lemma HonestBlockIsGood(c: Crypto, net: Network, b: Block)
    requires c.Sound() && Sane(c, net) && b in Emitted(net)
    ensures HashUnique(Emitted(net))
    ensures b.kind.Receive? ==> Accepted(SendsByHash(Emitted(net)), b)
    ensures b.kind.Open? ==> b.nonce == 1
    ensures Moves(SendsByHash(Emitted(net)), b)
  {
    EmittedHashUnique(c, net);
    EmittedPosition(c, net, b);
    LinkOf(c, net, b.account, b.nonce - 1);
    if b.kind.Receive? {
      ReceivesAreAccepted(c, net, b.account, b.nonce - 1);
    }
  }

  /** What the blocks of an honest network ever credit to an account. */
  ghost function CreditsIn(c: Crypto, net: Network, a: string): int
    requires c.Sound() && Sane(c, net)
  {
    EmittedHashUnique(c, net);
    Sums.SumOver(BlocksFor(Emitted(net), a), Credits(SendsByHash(Emitted(net))))
  }

  /** The saturating counters give an honest account's balance exactly when its credits fit in a `u64` or its balance
      is zero; and never a negative one. */
  lemma HonestBalance(c: Crypto, net: Network, a: string)
    requires c.Sound() && Sane(c, net) && a in net
    ensures HashUnique(Emitted(net))
    ensures BalanceOf(Emitted(net), SendsByHash(Emitted(net)), a) >= 0
    ensures BalanceOf(Emitted(net), SendsByHash(Emitted(net)), a) == net[a].balance <==>
            CreditsIn(c, net, a) <= U64_MAX || net[a].balance == 0
  {
    EmittedHashUnique(c, net);
    var sends := SendsByHash(Emitted(net));
    BalanceIsNetFlow(c, net, a);
    NetIsCreditsMinusDebits(BlocksFor(Emitted(net), a), sends);
    assert Owned(c, a, net[a]);
    BalanceWithinCap(c, net[a]);
    BalanceIsExactIff(Emitted(net), sends, a);
  }

  lemma HonestMovedAccounts(c: Crypto, net: Network)
    requires c.Sound() && Sane(c, net) && HashUnique(Emitted(net))
    ensures MovedAccounts(Emitted(net), SendsByHash(Emitted(net))) == (set a | a in net && net[a].chain != [])
  {
    forall a | a in net && net[a].chain != []
      ensures a in MovedAccounts(Emitted(net), SendsByHash(Emitted(net)))
    {
      LinkOf(c, net, a, 0);
      HonestBlockIsGood(c, net, net[a].chain[0]);
    }
    forall b | b in Emitted(net)
      ensures b.account in net && net[b.account].chain != []
    {
      EmittedPosition(c, net, b);
    }
  }

  /** However the blocks of an honest run are spread over the two partitions, reconciliation succeeds without
      conflicts or rejections and reports exactly the accounts that have blocks; and it reports an account's own
      balance exactly when the credits the account ever gathered fit in a `u64` or the balance is zero. */
  lemma HonestPartitionsReconcile(
    c: Crypto, ops: seq<Op>, partitionA: seq<Block>, partitionB: seq<Block>, r: Result<Report, Error>)
    requires c.Sound() && HonestRun(c, ops)
    requires Elements(partitionA + partitionB) == Emitted(Run(c, ops))
    requires Reconciles(partitionA, partitionB, r)
    ensures Sane(c, Run(c, ops)) && r.Ok?
    ensures r.value.conflicts == [] && r.value.rejectedReceives == [] && r.value.rejectedGenesis == []
    ensures r.value.balances.Keys == set a | a in Run(c, ops) && Run(c, ops)[a].chain != []
    ensures forall a :: a in r.value.balances ==>
      (r.value.balances[a] == Run(c, ops)[a].balance <==>
       CreditsIn(c, Run(c, ops), a) <= U64_MAX || Run(c, ops)[a].balance == 0)
  {
    EveryRunIsSane(c, ops);
    EmittedHashUnique(c, Run(c, ops));
    DedupKeepsAll(partitionA + partitionB);
    HonestBlocksReconcile(c, Run(c, ops), r);
  }

  lemma HonestOutcomeIsOk(c: Crypto, net: Network, r: Result<Report, Error>)
    requires c.Sound() && Sane(c, net) && HashUnique(Emitted(net))
    requires Winners(Emitted(net)) == Emitted(net) && Describes(Emitted(net), r)
    ensures r.Ok?
  {
    if r.Err? {
      HonestMovedAccounts(c, net);
      HonestBalance(c, net, r.error.account);
      assert false;
    }
  }

  lemma HonestBalances(c: Crypto, net: Network, m: map<string, int>, a: string)
    requires c.Sound() && Sane(c, net) && HashUnique(Emitted(net))
    requires AreBalances(m, Emitted(net), SendsByHash(Emitted(net))) && a in m
    ensures a in net && net[a].chain != []
    ensures m[a] == net[a].balance <==> CreditsIn(c, net, a) <= U64_MAX || net[a].balance == 0
  {
    HonestMovedAccounts(c, net);
    assert m[a] == BalanceOf(Emitted(net), SendsByHash(Emitted(net)), a);
    HonestBalance(c, net, a);
  }

  lemma HonestBlocksReconcile(c: Crypto, net: Network, r: Result<Report, Error>)
    requires c.Sound() && Sane(c, net) && HashUnique(Emitted(net)) && Describes(Emitted(net), r)
    ensures r.Ok?
    ensures r.value.conflicts == [] && r.value.rejectedReceives == [] && r.value.rejectedGenesis == []
    ensures r.value.balances.Keys == set a | a in net && net[a].chain != []
    ensures forall a :: a in r.value.balances ==>
      (r.value.balances[a] == net[a].balance <==> CreditsIn(c, net, a) <= U64_MAX || net[a].balance == 0)
  {
    var blocks := Emitted(net);
    HonestBlocksAllWin(c, net);
    HonestOutcomeIsOk(c, net, r);
    HonestMovedAccounts(c, net);
    forall a | a in r.value.balances
      ensures r.value.balances[a] == net[a].balance <==> CreditsIn(c, net, a) <= U64_MAX || net[a].balance == 0
    {
      HonestBalances(c, net, r.value.balances, a);
    }
    Ordering.HeadIsIn(r.value.conflicts);
    WinnersAtAreWinners(blocks, SortedKeys(Keys(blocks)));
    forall w | w in WinnersInOrder(blocks)
      ensures (w.kind.Receive? ==> Accepted(SendsByHash(blocks), w)) && (w.kind.Open? ==> w.nonce == 1)
    {
      HonestBlockIsGood(c, net, w);
    }
    NothingRejected(SendsByHash(blocks), WinnersInOrder(blocks));
  }
}
