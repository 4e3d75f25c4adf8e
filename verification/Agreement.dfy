/** Honest producers and the global validator agree. */
module Agreement {
  import opened Common
  import Sums
  import opened Blocks
  import opened AccountChain
  import opened Validation
  import opened Ledger
  import opened Flows
  import opened Network

  ghost predicate OpensFirst(net: Network) {
    forall a :: a in net && net[a].chain != [] ==> net[a].chain[0].kind.Open?
  }

  /** All emitted blocks, each once, in an order that respects every chain and puts a SEND before its RECEIVE. */
  ghost predicate CausalFeed(net: Network, feed: seq<Block>) {
    && Elements(feed) == Emitted(net)
    && (forall i, j {:trigger DifferAt(feed, i, j)} :: 0 <= i < j < |feed| ==> DifferAt(feed, i, j))
    && (forall i, j {:trigger Precedes(feed[i], feed[j])} ::
          0 <= i < |feed| && 0 <= j < |feed| && Precedes(feed[i], feed[j]) ==> i < j)
  }

  predicate DifferAt(feed: seq<Block>, i: nat, j: nat)
    requires i < j < |feed|
  {
    feed[i] != feed[j]
  }

  /** The first block must reach the ledger before the second. */
  predicate Precedes(x: Block, y: Block) {
    || (x.account == y.account && x.nonce < y.nonce)
    || (x.kind.Send? && y.kind == Receive(x.hash))
  }

  /** After a number of blocks, the ledger holds exactly those blocks, as prefixes of the producers' chains. */
  ghost predicate Tracks(net: Network, s: LedgerState, fed: seq<Block>) {
    && BlocksOf(s.chains) == Elements(fed)
    && (forall a :: a in s.chains ==>
          a in net && 1 <= |s.chains[a]| <= |net[a].chain| && s.chains[a] == net[a].chain[..|s.chains[a]|])
  }
  /** The next block of a causal feed comes exactly where its account's stored prefix ends. */
  lemma NextFits(c: Crypto, net: Network, feed: seq<Block>, k: nat, s: LedgerState)
    requires AllConsistent(c, net) && CausalFeed(net, feed) && k < |feed|
    requires ChainsInOrder(c, s.chains) && Tracks(net, s, feed[..k])
    ensures feed[k].account in net && feed[k].nonce == |ChainOf(s, feed[k].account)| + 1
    ensures |ChainOf(s, feed[k].account)| < |net[feed[k].account].chain|
    ensures feed[k] == net[feed[k].account].chain[|ChainOf(s, feed[k].account)|]
    ensures ChainOf(s, feed[k].account) == net[feed[k].account].chain[..feed[k].nonce - 1]
    ensures feed[k] !in BlocksOf(s.chains)
  {
    var b := feed[k];
    var n := |ChainOf(s, b.account)|;
    EmittedPosition(c, net, b);
    forall j | 0 <= j < k ensures feed[j] != b {
      assert DifferAt(feed, j, k);
    }
    assert b !in Elements(feed[..k]);
    assert b in ChainOf(s, b.account) ==> b in BlocksOf(s.chains);
    if n < b.nonce - 1 {
      var x := net[b.account].chain[n];
      LinkOf(c, net, b.account, n);
      assert x in Elements(feed);
      var j :| 0 <= j < |feed| && feed[j] == x;
      assert Precedes(feed[j], feed[k]);
      assert x == feed[..k][j];
      assert x in BlocksOf(s.chains);
      StoredPosition(c, s.chains, x);
      assert false;
    }
  }
  /** A RECEIVE finds its SEND in the index and unconsumed. */
  lemma ReceiveIsReady(c: Crypto, net: Network, feed: seq<Block>, k: nat, s: LedgerState)
    requires c.Sound() && Sane(c, net) && CausalFeed(net, feed) && k < |feed|
    requires Coherent(c, s) && Tracks(net, s, feed[..k])
    requires feed[k].kind.Receive? && feed[k] !in BlocksOf(s.chains)
    ensures feed[k].kind.sourceHash in s.sendIndex
    ensures s.sendIndex[feed[k].kind.sourceHash].destination == feed[k].account
    ensures feed[k].kind.sourceHash !in s.consumed
  {
    var b := feed[k];
    EmittedPosition(c, net, b);
    ReceivesAreAccepted(c, net, b.account, b.nonce - 1);
    var send := SendsByHash(Emitted(net))[b.kind.sourceHash];
    assert send in Elements(feed);
    var j :| 0 <= j < |feed| && feed[j] == send;
    assert Precedes(feed[j], feed[k]);
    assert send == feed[..k][j];
    assert send in BlocksOf(s.chains);
    if b.kind.sourceHash in s.consumed {
      var other :| other in BlocksOf(s.chains) && other.kind == Receive(b.kind.sourceHash);
      assert other in Elements(feed);
      NoSendCreditedTwice(c, net);
      assert false;
    }
  }

  /** Opening one more account stays within what the producers opened altogether. */
  lemma OpenIsReady(c: Crypto, net: Network, s: LedgerState, b: Block)
    requires Coherent(c, s) && BlocksOf(s.chains) + {b} <= Emitted(net) && b !in BlocksOf(s.chains)
    requires Sums.SumOver(Emitted(net), OpenAmount) <= TOTAL_SUPPLY_MICRO_ARX
    ensures s.supply + OpenAmount(b) <= TOTAL_SUPPLY_MICRO_ARX
  {
    Sums.SumAdd(BlocksOf(s.chains), OpenAmount, b);
    Sums.SumSubset(BlocksOf(s.chains) + {b}, Emitted(net), OpenAmount);
  }

  lemma NextIsAccepted(c: Crypto, net: Network, feed: seq<Block>, k: nat, s: LedgerState)
    requires c.Sound() && Sane(c, net) && OpensFirst(net) && CausalFeed(net, feed) && k < |feed|
    requires Sums.SumOver(Emitted(net), OpenAmount) <= TOTAL_SUPPLY_MICRO_ARX
    requires Coherent(c, s) && Tracks(net, s, feed[..k])
    ensures Precheck(c, s, feed[k]) == Ok(())
    ensures Continuity(ChainOf(s, feed[k].account), feed[k]) == Ok(())
  {
    NextFits(c, net, feed, k, s);
    NextPassesChecks(c, net, feed, k, s);
    NextContinues(c, net, feed, k, s);
  }

  lemma NextPassesChecks(c: Crypto, net: Network, feed: seq<Block>, k: nat, s: LedgerState)
    requires c.Sound() && Sane(c, net) && CausalFeed(net, feed) && k < |feed|
    requires Sums.SumOver(Emitted(net), OpenAmount) <= TOTAL_SUPPLY_MICRO_ARX
    requires Coherent(c, s) && Tracks(net, s, feed[..k]) && feed[k] !in BlocksOf(s.chains)
    ensures Precheck(c, s, feed[k]) == Ok(())
  {
    var b := feed[k];
    assert b in Elements(feed) && Elements(feed[..k]) <= Elements(feed);
    EmittedPosition(c, net, b);
    LinkOf(c, net, b.account, b.nonce - 1);
    OpenIsReady(c, net, s, b);
    if b.kind.Receive? {
      ReceiveIsReady(c, net, feed, k, s);
    }
  }

  /** A block that stands in its chain where the stored prefix ends continues that prefix. */
  lemma NextContinues(c: Crypto, net: Network, feed: seq<Block>, k: nat, s: LedgerState)
    requires AllConsistent(c, net) && OpensFirst(net) && k < |feed|
    requires feed[k].account in net
    requires var before := ChainOf(s, feed[k].account);
      && |before| < |net[feed[k].account].chain| && feed[k].nonce == |before| + 1
      && feed[k] == net[feed[k].account].chain[|before|]
      && before == net[feed[k].account].chain[..feed[k].nonce - 1]
    ensures Continuity(ChainOf(s, feed[k].account), feed[k]) == Ok(())
  {
    var b := feed[k];
    var before := ChainOf(s, b.account);
    LinkOf(c, net, b.account, |before|);
    if before != [] {
      LinkOf(c, net, b.account, |before| - 1);
    }
  }

  lemma NextKeepsTracking(c: Crypto, net: Network, feed: seq<Block>, k: nat, s: LedgerState)
    requires AllConsistent(c, net) && CausalFeed(net, feed) && k < |feed|
    requires ChainsInOrder(c, s.chains) && Tracks(net, s, feed[..k])
    requires Ingest(c, s, feed[k]).1 == Ok(())
    ensures Tracks(net, Ingest(c, s, feed[k]).0, feed[..k + 1])
  {
    var b := feed[k];
    NextFits(c, net, feed, k, s);
    var before := ChainOf(s, b.account);
    var touched := s.chains[b.account := before];
    TouchStoresNothing(s, b.account);
    StoreAddsBlock(touched, b.account, b);
    var after := Ingest(c, s, b).0;
    assert after.chains == touched[b.account := before + [b]];
    assert feed[..k + 1] == feed[..k] + [b];
    assert Elements(feed[..k + 1]) == Elements(feed[..k]) + {b};
    assert before + [b] == net[b.account].chain[..b.nonce];
  }

  lemma NextStep(c: Crypto, net: Network, feed: seq<Block>, k: nat, s: LedgerState)
    requires c.Sound() && Sane(c, net) && OpensFirst(net) && CausalFeed(net, feed) && k < |feed|
    requires Sums.SumOver(Emitted(net), OpenAmount) <= TOTAL_SUPPLY_MICRO_ARX
    requires Coherent(c, s) && Tracks(net, s, feed[..k])
    ensures Ingest(c, s, feed[k]).1 == Ok(()) && Tracks(net, Ingest(c, s, feed[k]).0, feed[..k + 1])
  {
    NextIsAccepted(c, net, feed, k, s);
    NextKeepsTracking(c, net, feed, k, s);
  }

  /** The ledger accepts block `j` of the feed. */
  ghost predicate AcceptsAt(c: Crypto, feed: seq<Block>, j: nat)
    requires j < |feed|
  {
    Ingest(c, Replay(c, feed[..j]), feed[j]).1 == Ok(())
  }

  lemma OneMoreFed(c: Crypto, net: Network, feed: seq<Block>, k: nat)
    requires c.Sound() && Sane(c, net) && OpensFirst(net) && CausalFeed(net, feed) && k < |feed|
    requires Sums.SumOver(Emitted(net), OpenAmount) <= TOTAL_SUPPLY_MICRO_ARX
    requires Tracks(net, Replay(c, feed[..k]), feed[..k])
    ensures Tracks(net, Replay(c, feed[..k + 1]), feed[..k + 1]) && AcceptsAt(c, feed, k)
  {
    EveryRunIsCoherent(c, feed[..k]);
    NextStep(c, net, feed, k, Replay(c, feed[..k]));
    assert feed[..k + 1][..k] == feed[..k];
  }

  lemma NothingFed(c: Crypto, net: Network, feed: seq<Block>)
    ensures Tracks(net, Replay(c, feed[..0]), feed[..0])
  {
    assert BlocksOf(EMPTY_LEDGER.chains) == {};
  }

  lemma {:induction false} EveryPrefixTracks(c: Crypto, net: Network, feed: seq<Block>, k: nat)
    requires c.Sound() && Sane(c, net) && OpensFirst(net) && CausalFeed(net, feed) && k <= |feed|
    requires Sums.SumOver(Emitted(net), OpenAmount) <= TOTAL_SUPPLY_MICRO_ARX
    ensures Tracks(net, Replay(c, feed[..k]), feed[..k])
    ensures forall j {:trigger AcceptsAt(c, feed, j)} :: 0 <= j < k ==> AcceptsAt(c, feed, j)
  {
    if k == 0 {
      NothingFed(c, net, feed);
    } else {
      EveryPrefixTracks(c, net, feed, k - 1);
      OneMoreFed(c, net, feed, k - 1);
    }
  }

  ghost function NonEmptyChains(net: Network): map<string, seq<Block>> {
    map a | a in net && net[a].chain != [] :: net[a].chain
  }

  /** A ledger that tracks all emitted blocks holds the producers' chains. */
  lemma TrackingAllIsEqual(c: Crypto, net: Network, s: LedgerState, feed: seq<Block>)
    requires AllConsistent(c, net) && ChainsInOrder(c, s.chains)
    requires Tracks(net, s, feed) && Elements(feed) == Emitted(net)
    ensures s.chains == NonEmptyChains(net)
  {
    forall a | a in net && net[a].chain != []
      ensures a in s.chains && s.chains[a] == net[a].chain
    {
      LinkOf(c, net, a, |net[a].chain| - 1);
      StoredPosition(c, s.chains, net[a].chain[|net[a].chain| - 1]);
    }
  }

  /** The blocks of an honest run, offered to the ledger in any causal order, are all accepted, and the ledger ends
      with exactly the producers' chains, as long as no more was opened than the supply ceiling. */
  lemma ProducersAndValidatorAgree(c: Crypto, ops: seq<Op>, feed: seq<Block>)
    requires c.Sound() && HonestRun(c, ops) && OpensFirst(Run(c, ops)) && CausalFeed(Run(c, ops), feed)
    requires Sums.SumOver(Emitted(Run(c, ops)), OpenAmount) <= TOTAL_SUPPLY_MICRO_ARX
    ensures forall k :: 0 <= k < |feed| ==> AcceptsAt(c, feed, k)
    ensures Replay(c, feed).chains == NonEmptyChains(Run(c, ops))
  {
    var net := Run(c, ops);
    EveryRunIsSane(c, ops);
    EveryRunIsCoherent(c, feed);
    assert feed[..|feed|] == feed;
    EveryPrefixTracks(c, net, feed, |feed|);
    TrackingAllIsEqual(c, net, Replay(c, feed), feed);
  }

  // ---- The order of emission ----

  /** The blocks of a run in the order in which they were made. */
  function Emission(c: Crypto, ops: seq<Op>): seq<Block> {
    if ops == [] then []
    else
      var init, op := ops[..|ops| - 1], ops[|ops| - 1];
      Emission(c, init) + (match Perform(c, Local(Run(c, init), op.account), op).1 case Ok(b) => [b] case Err(_) => [])
  }

  /** A new block was not made before. */
  lemma NewBlockIsLater(c: Crypto, net: Network, op: Op, b: Block)
    requires c.Sound() && Sane(c, net) && HonestOp(c, net, op)
    requires Perform(c, Local(net, op.account), op).1 == Ok(b)
    ensures b !in Emitted(net)
    ensures forall y :: y in Emitted(net) && y.account == b.account ==> y.nonce < b.nonce
  {
    StepKeepsSane(c, net, op);
    var net' := Step(c, net, op);
    assert op.account in net ==> Owned(c, op.account, net[op.account]);
    PerformKeepsConsistent(c, Local(net, op.account), op);
    LinkOf(c, net', op.account, |Local(net, op.account).chain|);
    forall y | y in Emitted(net) && y.account == b.account
      ensures y.nonce < b.nonce
    {
      EmittedPosition(c, net, y);
    }
  }

  /** A new block does not have to come before one made earlier. */
  lemma NewBlockPrecedesNone(c: Crypto, net: Network, op: Op, b: Block, y: Block)
    requires c.Sound() && Sane(c, net) && HonestOp(c, net, op) && y in Emitted(net)
    requires Perform(c, Local(net, op.account), op).1 == Ok(b)
    ensures !Precedes(b, y)
  {
    NewBlockIsLater(c, net, op, b);
    if b.kind.Send? && y.kind == Receive(b.hash) {
      ReceiptIsAccepted(c, net, y);
      StepKeepsSane(c, net, op);
      StepEmits(c, net, op);
      EmittedHashUnique(c, Step(c, net, op));
    }
  }

  lemma FeedExtends(c: Crypto, net: Network, feed: seq<Block>, op: Op, b: Block)
    requires c.Sound() && Sane(c, net) && HonestOp(c, net, op) && CausalFeed(net, feed)
    requires Perform(c, Local(net, op.account), op).1 == Ok(b)
    ensures CausalFeed(Step(c, net, op), feed + [b])
  {
    var longer := feed + [b];
    StepEmits(c, net, op);
    NewBlockIsLater(c, net, op, b);
    assert Elements(longer) == Elements(feed) + {b};
    forall i, j | 0 <= i < j < |longer|
      ensures DifferAt(longer, i, j)
    {
      if j < |feed| {
        assert DifferAt(feed, i, j);
      } else {
        assert feed[i] in Elements(feed);
      }
    }
    forall i, j | 0 <= i < |longer| && 0 <= j < |longer| && Precedes(longer[i], longer[j])
      ensures i < j
    {
      if i < |feed| && j < |feed| {
        assert Precedes(feed[i], feed[j]);
      } else if j < |feed| {
        assert feed[j] in Elements(feed);
        NewBlockPrecedesNone(c, net, op, b, feed[j]);
      }
    }
  }

  /** Every honest run has a causal feed: its own order of emission. */
  lemma {:induction false} EmissionIsCausal(c: Crypto, ops: seq<Op>)
    requires c.Sound() && HonestRun(c, ops)
    ensures CausalFeed(Run(c, ops), Emission(c, ops))
  {
    if ops != [] {
      var init, op := ops[..|ops| - 1], ops[|ops| - 1];
      var net := Run(c, init);
      EmissionIsCausal(c, init);
      EveryRunIsSane(c, init);
      StepEmits(c, net, op);
      match Perform(c, Local(net, op.account), op).1 {
        case Ok(b) => FeedExtends(c, net, Emission(c, init), op, b);
        case Err(_) => assert Emission(c, ops) == Emission(c, init);
      }
    } else {
      assert Elements([]) == Emitted(Run(c, []));
    }
  }

  /** So the validator accepts the blocks of an honest run as they are made. */
  lemma EmissionIsAccepted(c: Crypto, ops: seq<Op>)
    requires c.Sound() && HonestRun(c, ops) && OpensFirst(Run(c, ops))
    requires Sums.SumOver(Emitted(Run(c, ops)), OpenAmount) <= TOTAL_SUPPLY_MICRO_ARX
    ensures forall k :: 0 <= k < |Emission(c, ops)| ==> AcceptsAt(c, Emission(c, ops), k)
    ensures Replay(c, Emission(c, ops)).chains == NonEmptyChains(Run(c, ops))
  {
    EmissionIsCausal(c, ops);
    ProducersAndValidatorAgree(c, ops, Emission(c, ops));
  }
}
