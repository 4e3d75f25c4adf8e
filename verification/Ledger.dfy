/** The global validator: every account's chain, two cross-chain indices and the supply accumulator. */
module Ledger {
  import opened Common
  import Sums
  import opened Blocks
  import opened AccountChain
  import opened Validation

  datatype SendInfo = SendInfo(destination: string, amount: u64)

  datatype LedgerState = LedgerState(
    chains: map<string, seq<Block>>, sendIndex: map<string, SendInfo>, consumed: set<string>, supply: u64)

  const EMPTY_LEDGER := LedgerState(map[], map[], {}, 0)

  function ChainOf(s: LedgerState, account: string): seq<Block> {
    if account in s.chains then s.chains[account] else []
  }

  /** The blocks of a family of chains. */
  ghost function BlocksOf(chains: map<string, seq<Block>>): set<Block> {
    set a, b | a in chains && b in chains[a] :: b
  }

  function OpenAmount(b: Block): int {
    if b.kind.Open? then b.kind.initialBalance else 0
  }

  /** The checks made before the account's chain is looked up. */
  function Precheck(c: Crypto, s: LedgerState, b: Block): Result<(), Error> {
    if VerifyBlock(c, b).Err? then
      VerifyBlock(c, b)
    else
      match b.kind
      case Open(initial) =>
        if s.supply + initial > U64_MAX then
          Err(SupplyCapExceeded(U64_MAX, TOTAL_SUPPLY_MICRO_ARX))
        else if s.supply + initial > TOTAL_SUPPLY_MICRO_ARX then
          Err(SupplyCapExceeded(s.supply + initial, TOTAL_SUPPLY_MICRO_ARX))
        else
          Ok(())
      case Receive(source) =>
        if source !in s.sendIndex then
          Err(UnknownSourceSend(source))
        else if s.sendIndex[source].destination != b.account then
          Err(WrongDestination)
        else if source in s.consumed then
          Err(DuplicateReceive(source))
        else
          Ok(())
      case _ => Ok(())
  }

  /** The position of the block in its account's chain. */
  function Continuity(chain: seq<Block>, b: Block): Result<(), Error> {
    if chain != [] then
      var last := chain[|chain| - 1];
      if b.nonce != last.nonce + 1 then
        Err(NonceGap(|chain|, last.nonce + 1, b.nonce))
      else if b.previous != last.hash then
        Err(HashChainBroken(|chain|))
      else
        Ok(())
    else if b.nonce != 1 then
      Err(NonceGap(0, 1, b.nonce))
    else if !b.kind.Open? then
      Err(InvalidGenesis)
    else if b.previous != "" then
      Err(InvalidGenesis)
    else
      Ok(())
  }

  /** The effect of accepting a block. */
  function Store(s: LedgerState, b: Block): (r: LedgerState)
    requires b.kind.Open? ==> s.supply + b.kind.initialBalance <= U64_MAX
  {
    LedgerState(
      s.chains[b.account := ChainOf(s, b.account) + [b]],
      if b.kind.Send? then s.sendIndex[b.hash := SendInfo(b.kind.destination, b.kind.amount)] else s.sendIndex,
      if b.kind.Receive? then s.consumed + {b.kind.sourceHash} else s.consumed,
      if b.kind.Open? then s.supply + b.kind.initialBalance else s.supply)
  }

  /** `Ledger::add_block`. A block that fails the continuity check may leave an empty chain entry behind. */
  function Ingest(c: Crypto, s: LedgerState, b: Block): (LedgerState, Result<(), Error>) {
    if Precheck(c, s, b).Err? then
      (s, Precheck(c, s, b))
    else
      var touched := s.(chains := s.chains[b.account := ChainOf(s, b.account)]);
      if Continuity(ChainOf(s, b.account), b).Err? then
        (touched, Continuity(ChainOf(s, b.account), b))
      else
        (Store(touched, b), Ok(()))
  }

  /** The ledger invariant. */
  ghost predicate Coherent(c: Crypto, s: LedgerState) {
    var stored := BlocksOf(s.chains);
    && ChainsInOrder(c, s.chains)
    && IndexExact(stored, s.sendIndex)
    && ConsumedExact(stored, s.consumed)
    && ReceivesMatched(stored, s.sendIndex)
    && s.supply == Sums.SumOver(stored, OpenAmount)
    && s.supply <= TOTAL_SUPPLY_MICRO_ARX
  }

  ghost predicate ChainsInOrder(c: Crypto, chains: map<string, seq<Block>>) {
    forall a {:trigger InOrder(c, a, chains[a])} :: a in chains ==> InOrder(c, a, chains[a])
  }

  ghost predicate InOrder(c: Crypto, a: string, chain: seq<Block>) {
    Integral(c, chain) && forall b :: b in chain ==> b.account == a
  }

  /** The send index holds exactly the stored SENDs. */
  ghost predicate IndexExact(stored: set<Block>, index: map<string, SendInfo>) {
    && (forall b :: b in stored && b.kind.Send? ==>
          b.hash in index && index[b.hash] == SendInfo(b.kind.destination, b.kind.amount))
    && (forall h :: h in index ==> exists b :: b in stored && b.kind.Send? && b.hash == h)
  }

  /** The consumed set holds exactly the sources of stored RECEIVEs. */
  ghost predicate ConsumedExact(stored: set<Block>, consumed: set<string>) {
    && (forall b :: b in stored && b.kind.Receive? ==> b.kind.sourceHash in consumed)
    && (forall h :: h in consumed ==> exists b :: b in stored && b.kind == Receive(h))
  }

  /** Every stored RECEIVE cites a stored SEND to its own account, and no other RECEIVE cites it. */
  ghost predicate ReceivesMatched(stored: set<Block>, index: map<string, SendInfo>) {
    && (forall b :: b in stored && b.kind.Receive? ==>
          b.kind.sourceHash in index && index[b.kind.sourceHash].destination == b.account)
    && (forall b, e :: b in stored && e in stored && b.kind.Receive? && e.kind == b.kind ==> b == e)
  }

  /** Creating an empty entry stores nothing. */
  lemma TouchStoresNothing(s: LedgerState, a: string)
    ensures BlocksOf(s.chains[a := ChainOf(s, a)]) == BlocksOf(s.chains)
  {
    var t := s.chains[a := ChainOf(s, a)];
    forall b | b in BlocksOf(s.chains) ensures b in BlocksOf(t) {
      var x :| x in s.chains && b in s.chains[x];
      assert x in t && b in t[x];
    }
  }

  lemma StoreAddsBlock(chains: map<string, seq<Block>>, a: string, b: Block)
    requires a in chains
    ensures BlocksOf(chains[a := chains[a] + [b]]) == BlocksOf(chains) + {b}
  {
    var t := chains[a := chains[a] + [b]];
    assert b in t[a];
    forall x | x in BlocksOf(chains) ensures x in BlocksOf(t) {
      var k :| k in chains && x in chains[k];
      assert k in t && x in t[k];
    }
  }

  /** A stored block sits in its own account's chain at the place its nonce says, and its hash is right. */
  lemma StoredPosition(c: Crypto, chains: map<string, seq<Block>>, e: Block)
    requires ChainsInOrder(c, chains) && e in BlocksOf(chains)
    ensures e.account in chains && 1 <= e.nonce <= |chains[e.account]| && chains[e.account][e.nonce - 1] == e
    ensures IntegralAt(c, chains[e.account], e.nonce - 1) && Genuine(c, e)
  {
    var a :| a in chains && e in chains[a];
    assert InOrder(c, a, chains[a]);
    var i :| 0 <= i < |chains[a]| && chains[a][i] == e;
    assert IntegralAt(c, chains[a], i);
  }

  /** A block that continues its account's chain is not stored yet. */
  lemma NextBlockIsNew(c: Crypto, chains: map<string, seq<Block>>, b: Block)
    requires ChainsInOrder(c, chains) && b.account in chains
    requires Continuity(chains[b.account], b).Ok?
    ensures b.nonce == |chains[b.account]| + 1
    ensures b.previous == TipHash(chains[b.account])
    ensures b !in BlocksOf(chains)
  {
    var chain := chains[b.account];
    if chain != [] {
      assert InOrder(c, b.account, chain);
      assert IntegralAt(c, chain, |chain| - 1);
    }
    if b in BlocksOf(chains) {
      StoredPosition(c, chains, b);
    }
  }

  lemma StoreKeepsChains(c: Crypto, chains: map<string, seq<Block>>, b: Block)
    requires ChainsInOrder(c, chains) && b.account in chains
    requires VerifyBlock(c, b).Ok? && Continuity(chains[b.account], b).Ok?
    ensures ChainsInOrder(c, chains[b.account := chains[b.account] + [b]])
  {
    NextBlockIsNew(c, chains, b);
    var chain := chains[b.account];
    var longer := chain + [b];
    assert InOrder(c, b.account, chain);
    forall i | 0 <= i < |longer|
      ensures IntegralAt(c, longer, i)
    {
      if i < |chain| {
        assert IntegralAt(c, chain, i);
        assert longer[..i] == chain[..i];
      } else {
        assert longer[..i] == chain;
      }
    }
    var chains' := chains[b.account := longer];
    forall a | a in chains'
      ensures InOrder(c, a, chains'[a])
    {
      if a != b.account {
        assert InOrder(c, a, chains[a]);
      }
    }
  }

  /** Storing a SEND keeps the index exact: no other stored block can have its hash. */
  lemma StoreKeepsIndex(c: Crypto, s: LedgerState, b: Block)
    requires c.Sound() && ChainsInOrder(c, s.chains) && IndexExact(BlocksOf(s.chains), s.sendIndex)
    requires Precheck(c, s, b).Ok?
    ensures IndexExact(BlocksOf(s.chains) + {b}, Store(s, b).sendIndex)
  {
    forall e | e in BlocksOf(s.chains) && e.hash == b.hash
      ensures e.kind == b.kind
    {
      StoredPosition(c, s.chains, e);
      assert e.Body() == b.Body();
    }
  }

  lemma StoreKeepsConsumed(c: Crypto, s: LedgerState, b: Block)
    requires ConsumedExact(BlocksOf(s.chains), s.consumed) && Precheck(c, s, b).Ok?
    ensures ConsumedExact(BlocksOf(s.chains) + {b}, Store(s, b).consumed)
  {
    var stored, consumed := BlocksOf(s.chains), s.consumed;
    forall h | h in Store(s, b).consumed
      ensures exists e :: e in stored + {b} && e.kind == Receive(h)
    {
      if h in consumed {
        var e :| e in stored && e.kind == Receive(h);
        assert e in stored + {b};
      } else {
        assert b in stored + {b} && b.kind == Receive(h);
      }
    }
  }

  lemma IndexOnlyGrows(stored: set<Block>, b: Block, index: map<string, SendInfo>, grown: map<string, SendInfo>)
    requires IndexExact(stored, index) && IndexExact(stored + {b}, grown)
    ensures forall h :: h in index ==> h in grown && grown[h] == index[h]
  {
    forall h | h in index
      ensures h in grown && grown[h] == index[h]
    {
      var e :| e in stored && e.kind.Send? && e.hash == h;
      assert e in stored + {b};
    }
  }

  lemma OneMoreMatched(
    stored: set<Block>, b: Block, index: map<string, SendInfo>, grown: map<string, SendInfo>, consumed: set<string>)
    requires ReceivesMatched(stored, index) && ConsumedExact(stored, consumed)
    requires forall h :: h in index ==> h in grown && grown[h] == index[h]
    requires b.kind.Receive? ==> b.kind.sourceHash in index && b.kind.sourceHash !in consumed
    requires b.kind.Receive? ==> index[b.kind.sourceHash].destination == b.account
    ensures ReceivesMatched(stored + {b}, grown)
  {
    if b.kind.Receive? {
      forall e | e in stored ensures e.kind != b.kind {
        assert e.kind.Receive? ==> e.kind.sourceHash in consumed;
      }
    }
  }

  lemma StoreKeepsMatched(c: Crypto, s: LedgerState, stored: set<Block>, b: Block)
    requires Precheck(c, s, b).Ok? && ConsumedExact(stored, s.consumed) && ReceivesMatched(stored, s.sendIndex)
    requires IndexExact(stored, s.sendIndex) && IndexExact(stored + {b}, Store(s, b).sendIndex)
    ensures ReceivesMatched(stored + {b}, Store(s, b).sendIndex)
  {
    IndexOnlyGrows(stored, b, s.sendIndex, Store(s, b).sendIndex);
    OneMoreMatched(stored, b, s.sendIndex, Store(s, b).sendIndex, s.consumed);
  }

  lemma StoreKeepsCoherent(c: Crypto, s: LedgerState, b: Block)
    requires c.Sound() && Coherent(c, s) && b.account in s.chains
    requires Precheck(c, s, b).Ok? && Continuity(s.chains[b.account], b).Ok?
    ensures Coherent(c, Store(s, b))
  {
    NextBlockIsNew(c, s.chains, b);
    StoreKeepsChains(c, s.chains, b);
    StoreAddsBlock(s.chains, b.account, b);
    Sums.SumAdd(BlocksOf(s.chains), OpenAmount, b);
    StoreKeepsIndex(c, s, b);
    StoreKeepsConsumed(c, s, b);
    StoreKeepsMatched(c, s, BlocksOf(s.chains), b);
  }

  lemma TouchKeepsCoherent(c: Crypto, s: LedgerState, a: string)
    requires Coherent(c, s)
    ensures Coherent(c, s.(chains := s.chains[a := ChainOf(s, a)]))
  {
    TouchStoresNothing(s, a);
    var touched := s.chains[a := ChainOf(s, a)];
    forall x | x in touched
      ensures InOrder(c, x, touched[x])
    {
      assert x in s.chains ==> InOrder(c, x, s.chains[x]);
    }
  }

  /** `add_block` keeps the ledger coherent. */
  lemma IngestKeepsCoherent(c: Crypto, s: LedgerState, b: Block)
    requires c.Sound() && Coherent(c, s)
    ensures Coherent(c, Ingest(c, s, b).0)
  {
    if Precheck(c, s, b).Ok? {
      TouchKeepsCoherent(c, s, b.account);
      if Continuity(ChainOf(s, b.account), b).Ok? {
        StoreKeepsCoherent(c, s.(chains := s.chains[b.account := ChainOf(s, b.account)]), b);
      }
    }
  }

  /** A rejected block changes no stored chain, no index and no total; and it changes nothing at all unless it passes
      the checks before its chain is looked up and its account has no entry yet, which it then has. */
  lemma RejectionChangesNothing(c: Crypto, s: LedgerState, b: Block)
    requires Ingest(c, s, b).1.Err?
    ensures var t := Ingest(c, s, b).0;
      && (forall a :: ChainOf(t, a) == ChainOf(s, a))
      && BlocksOf(t.chains) == BlocksOf(s.chains)
      && t.sendIndex == s.sendIndex && t.consumed == s.consumed && t.supply == s.supply
      && (t == s <==> Precheck(c, s, b).Err? || b.account in s.chains)
      && (t != s ==> t == s.(chains := s.chains[b.account := []]))
  {
    TouchStoresNothing(s, b.account);
    if Precheck(c, s, b).Ok? {
      if b.account in s.chains {
        assert s.chains[b.account := ChainOf(s, b.account)] == s.chains;
      } else {
        assert b.account in Ingest(c, s, b).0.chains;
      }
    }
  }

  /** An account's OPEN with nonce 2, offered to the empty ledger, is rejected and leaves an empty chain behind. */
  lemma RejectionCanLeaveAnEntry(c: Crypto, a: string, now: u64)
    requires c.Sound() && c.validKey(a)
    ensures var b := c.Seal(Content(a, "", Open(0), 0, 2, now));
      Ingest(c, EMPTY_LEDGER, b) == (EMPTY_LEDGER.(chains := map[a := []]), Err(NonceGap(0, 1, 2)))
  {
  }

  // ---- Which blocks are accepted ----

  ghost predicate StoresSend(stored: set<Block>, hash: string, destination: string) {
    exists s :: s in stored && s.kind.Send? && s.hash == hash && s.kind.destination == destination
  }

  ghost predicate StoresReceiveOf(stored: set<Block>, hash: string) {
    exists r :: r in stored && r.kind == Receive(hash)
  }

  /** A block that a ledger holding these chains ought to take: genuine, next in its account's chain, an OPEN if
      it is the first, an OPEN only within the supply, and a RECEIVE only of a stored SEND to its account that no
      stored RECEIVE cites. */
  ghost predicate Admissible(c: Crypto, chains: map<string, seq<Block>>, b: Block) {
    var stored := BlocksOf(chains);
    var chain := if b.account in chains then chains[b.account] else [];
    && Genuine(c, b)
    && b.nonce == |chain| + 1 && b.previous == TipHash(chain)
    && (chain == [] ==> b.kind.Open?)
    && (b.kind.Open? ==> Sums.SumOver(stored, OpenAmount) + b.kind.initialBalance <= TOTAL_SUPPLY_MICRO_ARX)
    && (b.kind.Receive? ==>
          StoresSend(stored, b.kind.sourceHash, b.account) && !StoresReceiveOf(stored, b.kind.sourceHash))
  }

  lemma IndexMeansStored(c: Crypto, s: LedgerState, h: string, a: string)
    requires Coherent(c, s)
    ensures h in s.consumed <==> StoresReceiveOf(BlocksOf(s.chains), h)
    ensures h in s.sendIndex && s.sendIndex[h].destination == a <==> StoresSend(BlocksOf(s.chains), h, a)
  {
    var stored := BlocksOf(s.chains);
    if h in s.sendIndex {
      var e :| e in stored && e.kind.Send? && e.hash == h;
      assert s.sendIndex[h] == SendInfo(e.kind.destination, e.kind.amount);
    }
  }

  lemma ContinuityMeansNext(c: Crypto, s: LedgerState, b: Block)
    requires Coherent(c, s)
    ensures var chain := ChainOf(s, b.account);
      Continuity(chain, b).Ok? <==>
      b.nonce == |chain| + 1 && b.previous == TipHash(chain) && (chain == [] ==> b.kind.Open?)
  {
    var chain := ChainOf(s, b.account);
    if chain != [] {
      assert InOrder(c, b.account, s.chains[b.account]);
      assert IntegralAt(c, chain, |chain| - 1);
    }
  }

  /** `add_block` accepts exactly the admissible blocks: the indices and the running total stand in for a search of
      all chains. */
  lemma AcceptsExactlyTheAdmissible(c: Crypto, s: LedgerState, b: Block)
    requires c.Sound() && Coherent(c, s)
    ensures Ingest(c, s, b).1.Ok? <==> Admissible(c, s.chains, b)
  {
    ContinuityMeansNext(c, s, b);
    if b.kind.Receive? {
      IndexMeansStored(c, s, b.kind.sourceHash, b.account);
    }
  }

  /** The ledger after any sequence of `add_block` calls, accepted or not. */
  function Replay(c: Crypto, blocks: seq<Block>): LedgerState {
    if blocks == [] then EMPTY_LEDGER
    else Ingest(c, Replay(c, blocks[..|blocks| - 1]), blocks[|blocks| - 1]).0
  }

  /** The ledger invariant holds after every run, and every stored block was offered. */
  lemma {:induction false} EveryRunIsCoherent(c: Crypto, blocks: seq<Block>)
    requires c.Sound()
    ensures Coherent(c, Replay(c, blocks))
    ensures forall b :: b in BlocksOf(Replay(c, blocks).chains) ==> b in blocks
  {
    if blocks == [] {
      assert BlocksOf(EMPTY_LEDGER.chains) == {};
    } else {
      var before := blocks[..|blocks| - 1];
      var b := blocks[|blocks| - 1];
      EveryRunIsCoherent(c, before);
      var s := Replay(c, before);
      IngestKeepsCoherent(c, s, b);
      TouchStoresNothing(s, b.account);
      StoreAddsBlock(s.chains[b.account := ChainOf(s, b.account)], b.account, b);
      assert BlocksOf(Ingest(c, s, b).0.chains) <= BlocksOf(s.chains) + {b};
    }
  }

  /** Nothing forged is ever stored: after any run every stored block is genuine. */
  lemma EveryStoredBlockIsGenuine(c: Crypto, blocks: seq<Block>, b: Block)
    requires c.Sound() && b in BlocksOf(Replay(c, blocks).chains)
    ensures c.validKey(b.account) && b.hash == c.digest(b.Body())
    ensures |b.signature| == 64 && c.verifies(b.account, b.hash, b.signature)
    ensures b in blocks
  {
    EveryRunIsCoherent(c, blocks);
    StoredPosition(c, Replay(c, blocks).chains, b);
  }

  /** An accepted block is appended to its account's chain, and nothing else is. */
  lemma AcceptedIsAppended(c: Crypto, s: LedgerState, b: Block)
    requires Ingest(c, s, b).1.Ok?
    ensures var t := Ingest(c, s, b).0;
      && t.chains.Keys == s.chains.Keys + {b.account}
      && t.chains[b.account] == (if b.account in s.chains then s.chains[b.account] else []) + [b]
      && forall a :: a in s.chains && a != b.account ==> t.chains[a] == s.chains[a]
  {
  }

  /** What an error says about the block and the chains stored so far. */
  ghost predicate TellsTheTruth(c: Crypto, chains: map<string, seq<Block>>, b: Block, e: Error) {
    var stored := BlocksOf(chains);
    var chain := if b.account in chains then chains[b.account] else [];
    match e
    case InvalidKey => !c.validKey(b.account)
    case HashMismatch => b.hash != c.digest(b.Body())
    case SignatureInvalid => |b.signature| != 64 || !c.verifies(b.account, b.hash, b.signature)
    case SupplyCapExceeded(_, _) =>
      b.kind.Open? && Sums.SumOver(stored, OpenAmount) + b.kind.initialBalance > TOTAL_SUPPLY_MICRO_ARX
    case UnknownSourceSend(h) =>
      b.kind == Receive(h) && forall s :: s in stored && s.kind.Send? ==> s.hash != h
    case WrongDestination =>
      && b.kind.Receive? && !StoresSend(stored, b.kind.sourceHash, b.account)
      && exists s :: s in stored && s.kind.Send? && s.hash == b.kind.sourceHash
    case DuplicateReceive(h) =>
      b.kind == Receive(h) && StoresSend(stored, h, b.account) && StoresReceiveOf(stored, h)
    case NonceGap(index, expected, got) =>
      index == |chain| && expected == |chain| + 1 && got == b.nonce != expected
    case HashChainBroken(index) => index == |chain| > 0 && b.previous != TipHash(chain)
    case InvalidGenesis => chain == [] && (!b.kind.Open? || b.previous != "")
    case _ => false
  }

  /** Every rejection gives a true reason. */
  lemma RejectionTellsTheTruth(c: Crypto, s: LedgerState, b: Block)
    requires c.Sound() && Coherent(c, s) && Ingest(c, s, b).1.Err?
    ensures TellsTheTruth(c, s.chains, b, Ingest(c, s, b).1.error)
  {
    ReasonForPosition(c, s, b);
    if Precheck(c, s, b).Err? {
      ReasonForCheck(c, s, b);
    }
  }

  lemma ReasonForPosition(c: Crypto, s: LedgerState, b: Block)
    requires Coherent(c, s)
    ensures var r := Continuity(ChainOf(s, b.account), b); r.Err? ==> TellsTheTruth(c, s.chains, b, r.error)
  {
    var chain := ChainOf(s, b.account);
    if chain != [] {
      assert InOrder(c, b.account, s.chains[b.account]);
      assert IntegralAt(c, chain, |chain| - 1);
    }
  }

  lemma ReasonForCheck(c: Crypto, s: LedgerState, b: Block)
    requires Coherent(c, s) && Precheck(c, s, b).Err?
    ensures TellsTheTruth(c, s.chains, b, Precheck(c, s, b).error)
  {
    if b.kind.Receive? {
      IndexMeansStored(c, s, b.kind.sourceHash, b.account);
    }
  }

  /** The ledger with its maps updated in place. */
  class Ledger {
    const crypto: Crypto
    var chains: map<string, seq<Block>>
    var sendIndex: map<string, SendInfo>
    var consumedSends: set<string>
    var totalSupply: u64

    ghost function View(): LedgerState
      reads this
    {
      LedgerState(chains, sendIndex, consumedSends, totalSupply)
    }

    ghost predicate Valid()
      reads this
    {
      crypto.Sound() && Coherent(crypto, View())
    }

    constructor (c: Crypto)
      requires c.Sound()
      ensures Valid() && crypto == c && View() == EMPTY_LEDGER
    {
      crypto := c;
      chains := map[];
      sendIndex := map[];
      consumedSends := {};
      totalSupply := 0;
      EveryRunIsCoherent(c, []);
    }

    /** The checks on the block itself, the supply and the source of a RECEIVE. */
    method CheckBlock(block: Block) returns (r: Result<(), Error>)
      ensures r == Precheck(crypto, View(), block)
    {
      var verified := VerifyBlock(crypto, block);
      if verified.Err? {
        return verified;
      }
      if block.kind.Open? {
        var projected := totalSupply + block.kind.initialBalance;
        if projected > U64_MAX {
          return Err(SupplyCapExceeded(U64_MAX, TOTAL_SUPPLY_MICRO_ARX));
        }
        if projected > TOTAL_SUPPLY_MICRO_ARX {
          return Err(SupplyCapExceeded(projected, TOTAL_SUPPLY_MICRO_ARX));
        }
      }
      if block.kind.Receive? {
        var source := block.kind.sourceHash;
        if source !in sendIndex {
          return Err(UnknownSourceSend(source));
        }
        if sendIndex[source].destination != block.account {
          return Err(WrongDestination);
        }
        if source in consumedSends {
          return Err(DuplicateReceive(source));
        }
      }
      r := Ok(());
    }

    /** The checks on the block's place in its account's chain. */
    static method CheckPosition(chain: seq<Block>, block: Block) returns (r: Result<(), Error>)
      ensures r == Continuity(chain, block)
    {
      if chain != [] {
        var last := chain[|chain| - 1];
        if block.nonce != last.nonce + 1 {
          return Err(NonceGap(|chain|, last.nonce + 1, block.nonce));
        }
        if block.previous != last.hash {
          return Err(HashChainBroken(|chain|));
        }
      } else {
        if block.nonce != 1 {
          return Err(NonceGap(0, 1, block.nonce));
        }
        if !block.kind.Open? {
          return Err(InvalidGenesis);
        }
        if block.previous != "" {
          return Err(InvalidGenesis);
        }
      }
      r := Ok(());
    }

    /** The effect of accepting a block on the chain, the indices and the supply. */
    method StoreBlock(block: Block)
      requires block.account in chains
      requires block.kind.Open? ==> totalSupply + block.kind.initialBalance <= U64_MAX
      modifies this
      ensures View() == Store(old(View()), block)
    {
      match block.kind {
        case Send(destination, amount) => sendIndex := sendIndex[block.hash := SendInfo(destination, amount)];
        case Receive(source) => consumedSends := consumedSends + {source};
        case Open(initial) => totalSupply := totalSupply + initial;
        case Revoke(_) =>
      }
      chains := chains[block.account := chains[block.account] + [block]];
    }

    /** `add_block`: the checks in order, then the effect on the chain, the indices and the supply. */
    method AddBlock(block: Block) returns (r: Result<(), Error>)
      requires Valid()
      modifies this
      ensures Valid()
      ensures (View(), r) == Ingest(crypto, old(View()), block)
    {
      IngestKeepsCoherent(crypto, View(), block);
      r := CheckBlock(block);
      if r.Err? {
        return;
      }
      if block.account !in chains {
        chains := chains[block.account := []];
      }
      assert chains == old(chains)[block.account := ChainOf(old(View()), block.account)];
      var chain := chains[block.account];
      r := CheckPosition(chain, block);
      if r.Err? {
        return;
      }
      StoreBlock(block);
    }
  }
}
