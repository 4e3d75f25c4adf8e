/** Any number of account chains acting in any interleaving. */
module Network {
  import opened Common
  import opened Sums
  import opened Blocks
  import opened AccountChain
  import opened Ledger
  import opened Flows

  type Network = map<string, Account>

  datatype Op =
    | OpenOp(account: string, initial: u64, now: u64)
    | SendOp(account: string, destination: string, amount: u64, now: u64)
    | ReceiveOp(account: string, block: Block, now: u64)

  function Local(net: Network, a: string): Account {
    if a in net then net[a] else NewAccount(a)
  }

  /** One call on one account chain. */
  function Perform(c: Crypto, s: Account, op: Op): (Account, Result<Block, Error>) {
    match op
    case OpenOp(_, initial, now) => OpenAccount(c, s, initial, now)
    case SendOp(_, destination, amount, now) => SendFunds(c, s, destination, amount, now)
    case ReceiveOp(_, block, now) => ReceiveFunds(c, s, block, now)
  }

  function Step(c: Crypto, net: Network, op: Op): Network {
    net[op.account := Perform(c, Local(net, op.account), op).0]
  }

  function Run(c: Crypto, ops: seq<Op>): Network {
    if ops == [] then map[] else Step(c, Run(c, ops[..|ops| - 1]), ops[|ops| - 1])
  }

  function Chains(net: Network): map<string, seq<Block>> {
    map a | a in net :: net[a].chain
  }

  /** All blocks made so far. */
  ghost function Emitted(net: Network): set<Block> {
    BlocksOf(Chains(net))
  }

  /** Accounts own valid keys and receive only blocks that were really emitted. */
  ghost predicate HonestOp(c: Crypto, net: Network, op: Op) {
    c.validKey(op.account) && (op.ReceiveOp? ==> op.block in Emitted(net))
  }

  ghost predicate HonestRun(c: Crypto, ops: seq<Op>) {
    ops == [] || (HonestRun(c, ops[..|ops| - 1]) && HonestOp(c, Run(c, ops[..|ops| - 1]), ops[|ops| - 1]))
  }

  ghost predicate Sane(c: Crypto, net: Network) {
    AllConsistent(c, net) && AllBacked(net, Emitted(net))
  }

  ghost predicate AllConsistent(c: Crypto, net: Network) {
    forall a {:trigger Owned(c, a, net[a])} :: a in net ==> Owned(c, a, net[a])
  }

  ghost predicate Owned(c: Crypto, a: string, s: Account) {
    s.id == a && Consistent(c, s)
  }

  ghost predicate AllBacked(net: Network, emitted: set<Block>) {
    forall a, i {:trigger Backed(emitted, net[a].chain, i)} ::
      a in net && 0 <= i < |net[a].chain| ==> Backed(emitted, net[a].chain, i)
  }

  /** A RECEIVE at index `i` credits exactly what some emitted SEND to this account debited. */
  ghost predicate Backed(emitted: set<Block>, chain: seq<Block>, i: nat)
    requires i < |chain|
  {
    chain[i].kind.Receive? ==> exists s :: s in emitted && BackedBy(chain, i, s)
  }

  ghost predicate BackedBy(chain: seq<Block>, i: nat, s: Block)
    requires i < |chain| && chain[i].kind.Receive?
  {
    && s.kind.Send?
    && s.hash == chain[i].kind.sourceHash
    && s.kind.destination == chain[i].account
    && chain[i].balance == TipBalance(chain[..i]) + s.kind.amount
  }

  lemma EmittedPosition(c: Crypto, net: Network, b: Block)
    requires AllConsistent(c, net) && b in Emitted(net)
    ensures b.account in net && 1 <= b.nonce <= |net[b.account].chain|
    ensures net[b.account].chain[b.nonce - 1] == b && c.IsSealed(b)
  {
    var a :| a in net && b in net[a].chain;
    var i :| 0 <= i < |net[a].chain| && net[a].chain[i] == b;
    assert Owned(c, a, net[a]);
    assert LinkedAt(c, a, net[a].chain, i);
  }

  /** Every block of every chain is emitted, under its own name and place. */
  lemma LinkOf(c: Crypto, net: Network, a: string, i: nat)
    requires AllConsistent(c, net) && a in net && i < |net[a].chain|
    ensures LinkedAt(c, a, net[a].chain, i) && c.validKey(a)
    ensures net[a].chain[i].account == a && net[a].chain[i].nonce == i + 1
    ensures net[a].chain[i] in Emitted(net)
  {
    assert Owned(c, a, net[a]);
    assert LinkedAt(c, a, net[a].chain, i);
    assert a in Chains(net) && net[a].chain[i] in Chains(net)[a];
  }

  lemma StepEmits(c: Crypto, net: Network, op: Op)
    ensures var r := Perform(c, Local(net, op.account), op).1;
      Emitted(Step(c, net, op)) == Emitted(net) + (if r.Ok? then {r.value} else {})
  {
    var a := op.account;
    var s := Local(net, a);
    var r := Perform(c, s, op).1;
    var base := Chains(net)[a := s.chain];
    assert s.chain == ChainOf(EMPTY_LEDGER.(chains := Chains(net)), a);
    TouchStoresNothing(EMPTY_LEDGER.(chains := Chains(net)), a);
    assert BlocksOf(base) == Emitted(net);
    PerformAppends(c, s, op);
    assert Chains(Step(c, net, op)) == base[a := Perform(c, s, op).0.chain];
    if r.Ok? {
      StoreAddsBlock(base, a, r.value);
    } else {
      assert base[a := s.chain] == base;
    }
  }

  lemma PerformAppends(c: Crypto, s: Account, op: Op)
    ensures var (s', r) := Perform(c, s, op);
      s'.chain == s.chain + (if r.Ok? then [r.value] else [])
  {
    assert s.chain + [] == s.chain;
  }

  lemma PerformKeepsConsistent(c: Crypto, s: Account, op: Op)
    requires Consistent(c, s)
    ensures Consistent(c, Perform(c, s, op).0) && Perform(c, s, op).0.id == s.id
    ensures Perform(c, s, op).1.Err? ==> Perform(c, s, op).0 == s
    ensures Perform(c, s, op).1.Ok? ==> Perform(c, s, op).0.chain == s.chain + [Perform(c, s, op).1.value]
  {
    match op {
      case OpenOp(_, initial, now) => OpenKeepsConsistent(c, s, initial, now);
      case SendOp(_, destination, amount, now) => SendKeepsConsistent(c, s, destination, amount, now);
      case ReceiveOp(_, block, now) => ReceiveKeepsConsistent(c, s, block, now);
    }
  }

  lemma StillBacked(emitted: set<Block>, emitted': set<Block>, before: seq<Block>, after: seq<Block>, i: nat)
    requires emitted <= emitted' && i < |before| && before <= after && Backed(emitted, before, i)
    ensures Backed(emitted', after, i)
  {
    assert after[..i] == before[..i];
    if before[i].kind.Receive? {
      var send :| send in emitted && BackedBy(before, i, send);
      assert send in emitted' && BackedBy(after, i, send);
    }
  }

  lemma StepKeepsBacked(c: Crypto, net: Network, op: Op)
    requires AllBacked(net, Emitted(net)) && HonestOp(c, net, op)
    requires var s := Local(net, op.account); s.id == op.account && s.balance == TipBalance(s.chain)
    ensures AllBacked(Step(c, net, op), Emitted(Step(c, net, op)))
  {
    var net' := Step(c, net, op);
    var emitted, emitted' := Emitted(net), Emitted(net');
    StepEmits(c, net, op);
    forall a, i | a in net' && 0 <= i < |net'[a].chain|
      ensures Backed(emitted', net'[a].chain, i)
    {
      var before, after := Local(net, a).chain, net'[a].chain;
      if i < |before| {
        assert a in net && Backed(emitted, net[a].chain, i);
        StillBacked(emitted, emitted', before, after, i);
      } else if after[i].kind.Receive? {
        assert after[..i] == before;
        assert op.block in emitted' && BackedBy(after, i, op.block);
      }
    }
  }

  lemma StepKeepsSane(c: Crypto, net: Network, op: Op)
    requires Sane(c, net) && HonestOp(c, net, op)
    ensures Sane(c, Step(c, net, op))
  {
    var net' := Step(c, net, op);
    assert op.account in net ==> Owned(c, op.account, net[op.account]);
    PerformKeepsConsistent(c, Local(net, op.account), op);
    StepKeepsBacked(c, net, op);
    forall a | a in net'
      ensures Owned(c, a, net'[a])
    {
      assert a in net ==> Owned(c, a, net[a]);
    }
  }

  lemma {:induction false} EveryRunIsSane(c: Crypto, ops: seq<Op>)
    requires HonestRun(c, ops)
    ensures Sane(c, Run(c, ops))
  {
    if ops != [] {
      EveryRunIsSane(c, ops[..|ops| - 1]);
      StepKeepsSane(c, Run(c, ops[..|ops| - 1]), ops[|ops| - 1]);
    }
  }

  /** Whether an operation may go ahead: an account is opened once and within the cap, sends no more than it holds and
      not to itself, and receives a SEND addressed to it once and within the cap. */
  ghost predicate Permitted(net: Network, op: Op) {
    var s := Local(net, op.account);
    match op
    case OpenOp(_, initial, _) => s.chain == [] && initial <= MAX_INITIAL_BALANCE_PER_ACCOUNT
    case SendOp(a, destination, amount, _) => destination != a && 0 < amount <= s.balance
    case ReceiveOp(a, send, _) =>
      && send.kind.Send? && send.kind.destination == a
      && (forall b :: b in s.chain ==> b.kind != Receive(send.hash))
      && s.balance + send.kind.amount <= MAX_INITIAL_BALANCE_PER_ACCOUNT
  }

  /** Block `b` states what the operation asked for, as the next block of its account, and the balance that leaves. */
  ghost predicate Fulfils(c: Crypto, net: Network, op: Op, b: Block) {
    var s := Local(net, op.account);
    && b.account == op.account && b.nonce == |s.chain| + 1 && b.timestamp == op.now
    && b.hash == c.digest(b.Body()) && b.signature == c.sign(b.account, b.hash)
    && match op
       case OpenOp(_, initial, _) => b.kind == Open(initial) && b.balance == initial
       case SendOp(_, destination, amount, _) => b.kind == Send(destination, amount) && b.balance == s.balance - amount
       case ReceiveOp(_, send, _) =>
         && send.kind.Send? && b.kind == Receive(send.hash)
         && b.balance == s.balance + send.kind.amount
  }

  /** A permitted operation adds exactly the block it asks for and answers with it, and its balance becomes what the
      block says; any other operation is refused and adds nothing. */
  lemma OperationDoesWhatIsAsked(c: Crypto, net: Network, op: Op)
    requires AllConsistent(c, net) && c.validKey(op.account)
    ensures var s, s', r := Local(net, op.account), Local(Step(c, net, op), op.account),
                            Perform(c, Local(net, op.account), op).1;
      if Permitted(net, op) then
        r.Ok? && Fulfils(c, net, op, r.value) && s'.chain == s.chain + [r.value] && s'.balance == r.value.balance
      else
        r.Err? && s' == s
  {
    var s := Local(net, op.account);
    assert op.account in net ==> Owned(c, op.account, net[op.account]);
    PerformKeepsConsistent(c, s, op);
    if op.ReceiveOp? {
      assert op.block.hash in s.consumed <==> Cites(s.chain, op.block.hash);
    }
    assert Perform(c, s, op).1.Ok? <==> Permitted(net, op);
  }

  /** The network before the `i`-th operation of a run. */
  function Before(c: Crypto, ops: seq<Op>, i: nat): Network
    requires i < |ops|
  {
    Run(c, ops[..i])
  }

  ghost predicate Answers(c: Crypto, ops: seq<Op>, i: nat, b: Block)
    requires i < |ops|
  {
    Permitted(Before(c, ops, i), ops[i]) && Fulfils(c, Before(c, ops, i), ops[i], b)
  }

  lemma AnswersInLongerRun(c: Crypto, ops: seq<Op>, op: Op, i: nat, b: Block)
    requires i < |ops|
    ensures Answers(c, ops + [op], i, b) <==> Answers(c, ops, i, b)
    ensures Permitted(Before(c, ops + [op], i), (ops + [op])[i]) <==> Permitted(Before(c, ops, i), ops[i])
  {
    assert (ops + [op])[..i] == ops[..i];
  }

  /** Over any honest run, each emitted block fulfils a permitted operation. */
  lemma {:induction false} EveryBlockWasAsked(c: Crypto, ops: seq<Op>, b: Block)
    requires HonestRun(c, ops) && b in Emitted(Run(c, ops))
    ensures exists i :: 0 <= i < |ops| && Answers(c, ops, i, b)
  {
    assert ops != [];
    var before, op := ops[..|ops| - 1], ops[|ops| - 1];
    var net := Run(c, before);
    EveryRunIsSane(c, before);
    StepEmits(c, net, op);
    OperationDoesWhatIsAsked(c, net, op);
    assert ops == before + [op];
    if b in Emitted(net) {
      EveryBlockWasAsked(c, before, b);
      var i :| 0 <= i < |before| && Answers(c, before, i, b);
      AnswersInLongerRun(c, before, op, i, b);
      assert Answers(c, ops, i, b);
    } else {
      assert Permitted(net, op) && Fulfils(c, net, op, b);
      assert ops[..|before|] == before;
      assert Answers(c, ops, |before|, b);
    }
  }

  /** Over any honest run, each permitted operation had its block emitted. */
  lemma {:induction false} EveryPermittedOperationEmits(c: Crypto, ops: seq<Op>, i: nat)
    requires HonestRun(c, ops) && i < |ops| && Permitted(Before(c, ops, i), ops[i])
    ensures exists b :: b in Emitted(Run(c, ops)) && Answers(c, ops, i, b)
  {
    var before, op := ops[..|ops| - 1], ops[|ops| - 1];
    var net := Run(c, before);
    EveryRunIsSane(c, before);
    StepEmits(c, net, op);
    assert ops == before + [op];
    if i < |before| {
      AnswersInLongerRun(c, before, op, i, c.Seal(Content("", "", Open(0), 0, 0, 0)));
      EveryPermittedOperationEmits(c, before, i);
      var b :| b in Emitted(net) && Answers(c, before, i, b);
      AnswersInLongerRun(c, before, op, i, b);
      assert b in Emitted(Run(c, ops)) && Answers(c, ops, i, b);
    } else {
      OperationDoesWhatIsAsked(c, net, op);
      assert Answers(c, ops, i, Perform(c, Local(net, op.account), op).1.value);
    }
  }

  lemma EmittedHashUnique(c: Crypto, net: Network)
    requires c.Sound() && Sane(c, net)
    ensures HashUnique(Emitted(net))
    ensures forall x, y :: x in Emitted(net) && y in Emitted(net) && x.account == y.account && x.nonce == y.nonce
              ==> x == y
  {
    forall x, y | x in Emitted(net) && y in Emitted(net)
      ensures x.hash == y.hash ==> x == y
      ensures x.account == y.account && x.nonce == y.nonce ==> x == y
    {
      EmittedPosition(c, net, x);
      EmittedPosition(c, net, y);
    }
  }

  /** Every emitted RECEIVE is a valid receipt of an emitted SEND. */
  lemma ReceivesAreAccepted(c: Crypto, net: Network, a: string, i: nat)
    requires c.Sound() && Sane(c, net)
    requires a in net && i < |net[a].chain| && net[a].chain[i].kind.Receive?
    ensures HashUnique(Emitted(net))
    ensures Accepted(SendsByHash(Emitted(net)), net[a].chain[i])
    ensures net[a].chain[i].balance ==
            TipBalance(net[a].chain[..i]) + ReceivedAmount(SendsByHash(Emitted(net)), net[a].chain[i])
  {
    EmittedHashUnique(c, net);
    LinkOf(c, net, a, i);
    assert Backed(Emitted(net), net[a].chain, i);
    var s :| s in Emitted(net) && BackedBy(net[a].chain, i, s);
    assert SendsByHash(Emitted(net))[s.hash] == s;
  }

  /** Each block moves the running balance by its net movement. */
  lemma BalanceMoves(c: Crypto, net: Network, a: string, i: nat)
    requires c.Sound() && Sane(c, net) && a in net && i < |net[a].chain|
    ensures HashUnique(Emitted(net))
    ensures net[a].chain[i].balance ==
            TipBalance(net[a].chain[..i]) + Net(SendsByHash(Emitted(net)))(net[a].chain[i])
    ensures net[a].chain[i] !in net[a].chain[..i]
  {
    EmittedHashUnique(c, net);
    var chain := net[a].chain;
    LinkOf(c, net, a, i);
    if chain[i].kind.Receive? {
      ReceivesAreAccepted(c, net, a, i);
    }
    forall j | 0 <= j < i ensures chain[j].nonce == j + 1 {
      LinkOf(c, net, a, j);
    }
  }

  /** A running balance is the sum of what the blocks so far moved. */
  lemma {:induction false} BalanceIsFlow(c: Crypto, net: Network, a: string, n: nat)
    requires c.Sound() && Sane(c, net) && a in net && n <= |net[a].chain|
    requires HashUnique(Emitted(net))
    ensures SumOver(Elements(net[a].chain[..n]), Net(SendsByHash(Emitted(net)))) == TipBalance(net[a].chain[..n])
  {
    var chain := net[a].chain;
    if n == 0 {
      assert Elements(chain[..n]) == {};
    } else {
      BalanceIsFlow(c, net, a, n - 1);
      BalanceMoves(c, net, a, n - 1);
      assert chain[..n] == chain[..n - 1] + [chain[n - 1]];
      assert Elements(chain[..n]) == Elements(chain[..n - 1]) + {chain[n - 1]};
      SumAdd(Elements(chain[..n - 1]), Net(SendsByHash(Emitted(net))), chain[n - 1]);
    }
  }

  /** An account's balance is the net movement of the emitted blocks that bear its name. */
  lemma BalanceIsNetFlow(c: Crypto, net: Network, a: string)
    requires c.Sound() && Sane(c, net) && a in net
    ensures HashUnique(Emitted(net))
    ensures SumOver(BlocksFor(Emitted(net), a), Net(SendsByHash(Emitted(net)))) == net[a].balance
  {
    EmittedHashUnique(c, net);
    var chain := net[a].chain;
    assert Owned(c, a, net[a]);
    BalanceIsFlow(c, net, a, |chain|);
    assert chain[..|chain|] == chain;
    forall b ensures b in BlocksFor(Emitted(net), a) <==> b in chain {
      if b in BlocksFor(Emitted(net), a) {
        EmittedPosition(c, net, b);
      }
      if b in chain {
        var i :| 0 <= i < |chain| && chain[i] == b;
        LinkOf(c, net, a, i);
      }
    }
    assert BlocksFor(Emitted(net), a) == Elements(chain);
  }

  ghost function BalanceIn(net: Network): string -> int {
    a => if a in net then net[a].balance else 0
  }

  lemma ReceiptIsAccepted(c: Crypto, net: Network, r: Block)
    requires c.Sound() && Sane(c, net) && r in Emitted(net) && r.kind.Receive?
    ensures HashUnique(Emitted(net)) && Accepted(SendsByHash(Emitted(net)), r)
  {
    EmittedPosition(c, net, r);
    ReceivesAreAccepted(c, net, r.account, r.nonce - 1);
  }

  lemma SameSourceSameBlock(c: Crypto, net: Network, r: Block, r': Block)
    requires c.Sound() && Sane(c, net)
    requires r in Emitted(net) && r' in Emitted(net) && r.kind.Receive? && r'.kind == r.kind
    ensures r == r'
  {
    ReceiptIsAccepted(c, net, r);
    ReceiptIsAccepted(c, net, r');
    assert r.account == r'.account;
    EmittedPosition(c, net, r);
    EmittedPosition(c, net, r');
    assert Owned(c, r.account, net[r.account]);
    var i, j := r.nonce - 1, r'.nonce - 1;
    assert i < j ==> CitedOnce(net[r.account].chain, i, j);
    assert j < i ==> CitedOnce(net[r.account].chain, j, i);
  }

  /** No emitted SEND is received by two different blocks. */
  lemma NoSendCreditedTwice(c: Crypto, net: Network)
    requires c.Sound() && Sane(c, net)
    ensures HashUnique(Emitted(net)) && NoDoubleCredit(Emitted(net))
    ensures forall r, r' :: r in Emitted(net) && r' in Emitted(net) && r.kind.Receive? && r'.kind == r.kind ==> r == r'
  {
    EmittedHashUnique(c, net);
    forall r, r' | r in Emitted(net) && r' in Emitted(net) && r.kind.Receive? && r'.kind == r.kind
      ensures r == r'
    {
      SameSourceSameBlock(c, net, r, r');
    }
  }

  /** Conservation over every interleaving: balances plus SENDs not yet received equal what was opened; no SEND
      is credited twice; no balance exceeds the per-account cap. */
  lemma EveryRunConserves(c: Crypto, ops: seq<Op>)
    requires c.Sound() && HonestRun(c, ops)
    ensures var net := Run(c, ops);
      && HashUnique(Emitted(net))
      && SumOver(net.Keys, BalanceIn(net)) + SumOver(Unreceived(Emitted(net)), SendAmount)
         == SumOver(Emitted(net), OpenAmount)
      && (forall r, r' :: r in Emitted(net) && r' in Emitted(net) && r.kind.Receive? && r'.kind == r.kind ==> r == r')
      && (forall a :: a in net ==> net[a].balance <= MAX_INITIAL_BALANCE_PER_ACCOUNT)
  {
    var net := Run(c, ops);
    EveryRunIsSane(c, ops);
    NoSendCreditedTwice(c, net);
    forall a | a in net
      ensures net[a].balance <= MAX_INITIAL_BALANCE_PER_ACCOUNT
    {
      assert Owned(c, a, net[a]);
      BalanceWithinCap(c, net[a]);
    }
    SaneNetworkConserves(c, net);
    OpensAreGenesis(c, net);
  }

  lemma OpensAreGenesis(c: Crypto, net: Network)
    requires AllConsistent(c, net)
    ensures SumOver(Emitted(net), OpenAmount) == SumOver(Emitted(net), GenesisAmount)
  {
    forall b | b in Emitted(net)
      ensures OpenAmount(b) == GenesisAmount(b)
    {
      EmittedPosition(c, net, b);
      LinkOf(c, net, b.account, b.nonce - 1);
    }
    SumCong(Emitted(net), OpenAmount, GenesisAmount);
  }

  lemma SaneNetworkConserves(c: Crypto, net: Network)
    requires c.Sound() && Sane(c, net)
    ensures HashUnique(Emitted(net))
    ensures SumOver(net.Keys, BalanceIn(net)) + SumOver(Unreceived(Emitted(net)), SendAmount) ==
            SumOver(Emitted(net), GenesisAmount)
  {
    NoSendCreditedTwice(c, net);
    forall b | b in Emitted(net)
      ensures b.account in net.Keys
    {
      EmittedPosition(c, net, b);
    }
    forall a | a in net.Keys
      ensures BalanceIn(net)(a) == SumOver(BlocksFor(Emitted(net), a), Net(SendsByHash(Emitted(net))))
    {
      BalanceIsNetFlow(c, net, a);
    }
    Conservation(Emitted(net), net.Keys, BalanceIn(net));
  }
}
