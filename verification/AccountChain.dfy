/** The local producer of one account's blocks: opening the account, sending and receiving. */
module AccountChain {
  import opened Common
  import opened Blocks

  /** The state of an account chain as a value. */
  datatype Account = Account(id: string, chain: seq<Block>, balance: u64, nonce: nat, consumed: set<string>)

  function NewAccount(id: string): Account {
    Account(id, [], 0, 0, {})
  }

  /** The hash the next block of a chain must name as its predecessor. */
  function TipHash(chain: seq<Block>): string {
    if chain == [] then "" else chain[|chain| - 1].hash
  }

  /** The balance recorded by the last block of a chain. */
  function TipBalance(chain: seq<Block>): u64 {
    if chain == [] then 0 else chain[|chain| - 1].balance
  }

  /** The account after appending a block of the given kind that leaves the given balance. */
  function Append(c: Crypto, s: Account, kind: BlockType, balance: u64, now: u64): (Account, Block) {
    var b := c.Seal(Content(s.id, TipHash(s.chain), kind, balance, s.nonce + 1, now));
    (s.(chain := s.chain + [b], balance := balance, nonce := s.nonce + 1), b)
  }

  function OpenAccount(c: Crypto, s: Account, initial: u64, now: u64): (Account, Result<Block, Error>) {
    if s.chain != [] then
      (s, Err(AccountAlreadyOpen))
    else if initial > MAX_INITIAL_BALANCE_PER_ACCOUNT then
      (s, Err(SupplyCapExceeded(initial, MAX_INITIAL_BALANCE_PER_ACCOUNT)))
    else
      var (s', b) := Append(c, s.(nonce := 0), Open(initial), initial, now);
      (s', Ok(b))
  }

  function SendFunds(c: Crypto, s: Account, destination: string, amount: u64, now: u64)
    : (Account, Result<Block, Error>)
  {
    if amount == 0 then
      (s, Err(ZeroAmount))
    else if destination == s.id then
      (s, Err(SelfSendNotAllowed))
    else if s.balance < amount then
      (s, Err(InsufficientBalance(s.balance, amount)))
    else
      var (s', b) := Append(c, s, Send(destination, amount), s.balance - amount, now);
      (s', Ok(b))
  }

  function ReceiveFunds(c: Crypto, s: Account, send: Block, now: u64): (Account, Result<Block, Error>) {
    if !send.kind.Send? then
      (s, Err(NotSendBlock))
    else if send.kind.destination != s.id then
      (s, Err(WrongDestination))
    else if send.hash in s.consumed then
      (s, Err(DuplicateReceive(send.hash)))
    else if s.balance + send.kind.amount > U64_MAX then
      (s, Err(BalanceOverflow(s.balance, send.kind.amount)))
    else if s.balance + send.kind.amount > MAX_INITIAL_BALANCE_PER_ACCOUNT then
      (s, Err(SupplyCapExceeded(s.balance + send.kind.amount, MAX_INITIAL_BALANCE_PER_ACCOUNT)))
    else
      var (s', b) := Append(c, s, Receive(send.hash), s.balance + send.kind.amount, now);
      (s'.(consumed := s'.consumed + {send.hash}), Ok(b))
  }

  /** Whether block `i` of a chain records the balance its operation leaves, given the one before it. */
  predicate BalanceStep(id: string, kind: BlockType, index: nat, before: u64, after: u64) {
    match kind
    case Open(initial) => index == 0 && after == initial
    case Send(destination, amount) => 0 < amount <= before && destination != id && after == before - amount
    case Receive(_) => before <= after
    case Revoke(_) => false
  }

  /** What every operation keeps: nonces count from 1, each block names the one before it, is sealed by the
      account's key and records the running balance; the cap holds; no source is consumed twice. */
  ghost predicate Consistent(c: Crypto, s: Account) {
    && c.validKey(s.id)
    && s.nonce == |s.chain|
    && s.balance == TipBalance(s.chain)
    && (forall i {:trigger LinkedAt(c, s.id, s.chain, i)} :: 0 <= i < |s.chain| ==> LinkedAt(c, s.id, s.chain, i))
    && (forall h {:trigger Cites(s.chain, h)} :: h in s.consumed <==> Cites(s.chain, h))
    && (forall i, j {:trigger CitedOnce(s.chain, i, j)} :: 0 <= i < j < |s.chain| ==> CitedOnce(s.chain, i, j))
  }

  ghost predicate Cites(chain: seq<Block>, h: string) {
    exists i :: 0 <= i < |chain| && chain[i].kind == Receive(h)
  }

  ghost predicate CitedOnce(chain: seq<Block>, i: nat, j: nat)
    requires i < j < |chain|
  {
    chain[i].kind.Receive? ==> chain[i].kind != chain[j].kind
  }

  ghost predicate LinkedAt(c: Crypto, id: string, chain: seq<Block>, i: nat)
    requires i < |chain|
  {
    var b := chain[i];
    && b.account == id
    && b.nonce == i + 1
    && b.previous == TipHash(chain[..i])
    && c.IsSealed(b)
    && b.balance <= MAX_INITIAL_BALANCE_PER_ACCOUNT
    && BalanceStep(id, b.kind, i, TipBalance(chain[..i]), b.balance)
  }

  /** A block that links to the tip of a consistent account extends it consistently. */
  lemma AppendKeepsConsistent(c: Crypto, s: Account, s': Account, b: Block)
    requires Consistent(c, s)
    requires s' == s.(chain := s.chain + [b], balance := b.balance, nonce := s.nonce + 1, consumed := s'.consumed)
    requires LinkedAt(c, s.id, s'.chain, |s.chain|)
    requires b.kind.Receive? ==> b.kind.sourceHash !in s.consumed
    requires s'.consumed == s.consumed + (if b.kind.Receive? then {b.kind.sourceHash} else {})
    ensures Consistent(c, s')
  {
    forall i | 0 <= i < |s.chain|
      ensures LinkedAt(c, s.id, s'.chain, i)
    {
      assert LinkedAt(c, s.id, s.chain, i);
      assert s'.chain[..i] == s.chain[..i];
    }
    forall h ensures h in s'.consumed <==> Cites(s'.chain, h) {
      assert h in s.consumed <==> Cites(s.chain, h);
      if i :| 0 <= i < |s.chain| && s.chain[i].kind == Receive(h) {
        assert s'.chain[i].kind == Receive(h);
      }
      if b.kind == Receive(h) {
        assert s'.chain[|s.chain|].kind == Receive(h);
      }
    }
    forall i, j | 0 <= i < j < |s'.chain|
      ensures CitedOnce(s'.chain, i, j)
    {
      if j < |s.chain| {
        assert CitedOnce(s.chain, i, j);
      } else if s.chain[i].kind.Receive? {
        assert Cites(s.chain, s.chain[i].kind.sourceHash);
      }
    }
  }

  lemma BalanceWithinCap(c: Crypto, s: Account)
    requires Consistent(c, s)
    ensures s.balance <= MAX_INITIAL_BALANCE_PER_ACCOUNT
  {
    if s.chain != [] {
      assert LinkedAt(c, s.id, s.chain, |s.chain| - 1);
    }
  }

  lemma OpenKeepsConsistent(c: Crypto, s: Account, initial: u64, now: u64)
    requires Consistent(c, s)
    ensures Consistent(c, OpenAccount(c, s, initial, now).0)
  {
    var (s', r) := OpenAccount(c, s, initial, now);
    if r.Ok? {
      assert s'.chain[..|s.chain|] == s.chain;
      AppendKeepsConsistent(c, s, s', r.value);
    }
  }

  lemma SendKeepsConsistent(c: Crypto, s: Account, destination: string, amount: u64, now: u64)
    requires Consistent(c, s)
    ensures Consistent(c, SendFunds(c, s, destination, amount, now).0)
  {
    var (s', r) := SendFunds(c, s, destination, amount, now);
    if r.Ok? {
      BalanceWithinCap(c, s);
      assert s'.chain[..|s.chain|] == s.chain;
      AppendKeepsConsistent(c, s, s', r.value);
    }
  }

  lemma ReceiveKeepsConsistent(c: Crypto, s: Account, send: Block, now: u64)
    requires Consistent(c, s)
    ensures Consistent(c, ReceiveFunds(c, s, send, now).0)
  {
    var (s', r) := ReceiveFunds(c, s, send, now);
    if r.Ok? {
      assert s'.chain[..|s.chain|] == s.chain;
      AppendKeepsConsistent(c, s, s', r.value);
    }
  }

  /** Why a RECEIVE is refused: the cited block is no SEND, is addressed elsewhere, was received before, or would
      lift the balance over a limit. */
  lemma ReceiveRefusals(c: Crypto, s: Account, send: Block, now: u64)
    requires Consistent(c, s)
    ensures var r := ReceiveFunds(c, s, send, now).1;
      && (r == Err(NotSendBlock) <==> !send.kind.Send?)
      && (r == Err(WrongDestination) <==> send.kind.Send? && send.kind.destination != s.id)
      && (r == Err(DuplicateReceive(send.hash)) <==>
            send.kind.Send? && send.kind.destination == s.id && Cites(s.chain, send.hash))
      && (send.kind.Send? && send.kind.destination == s.id && !Cites(s.chain, send.hash) ==>
            var sum := s.balance + send.kind.amount;
            && (r == Err(BalanceOverflow(s.balance, send.kind.amount)) <==> sum > U64_MAX)
            && (r.Ok? <==> sum <= MAX_INITIAL_BALANCE_PER_ACCOUNT)
            && (sum <= U64_MAX && r.Err? ==> r == Err(SupplyCapExceeded(sum, MAX_INITIAL_BALANCE_PER_ACCOUNT))))
  {
    assert send.hash in s.consumed <==> Cites(s.chain, send.hash);
  }

  /** An account chain with its fields updated in place. The key pair is represented by the account name and
      the signer inside `crypto`; `now` stands for the clock reading. */
  class AccountChain {
    const crypto: Crypto
    const publicKeyHex: string
    var chain: seq<Block>
    var balance: u64
    var nonce: nat
    var consumedSources: set<string>

    ghost function View(): Account
      reads this
    {
      Account(publicKeyHex, chain, balance, nonce, consumedSources)
    }

    ghost predicate Valid()
      reads this
    {
      crypto.Sound() && Consistent(crypto, View())
    }

    /** The block just made is the last of the chain: it states the operation asked for and the resulting balance, at
        the next nonce, and its owner vouches for it. */
    ghost predicate Records(b: Block, kind: BlockType, now: u64)
      reads this
    {
      && chain != [] && b == chain[|chain| - 1]
      && b.account == publicKeyHex && b.kind == kind && b.balance == balance && b.timestamp == now
      && b.nonce == nonce == |chain| && b.previous == TipHash(chain[..|chain| - 1])
      && b.hash == crypto.digest(b.Body()) && b.signature == crypto.sign(b.account, b.hash)
    }

    constructor (c: Crypto, key: string)
      requires c.Sound() && c.validKey(key)
      ensures Valid() && crypto == c && View() == NewAccount(key)
    {
      crypto := c;
      publicKeyHex := key;
      chain := [];
      balance := 0;
      nonce := 0;
      consumedSources := {};
    }

    method Open(initialBalance: u64, now: u64) returns (r: Result<Block, Error>)
      requires Valid()
      modifies this
      ensures Valid()
      ensures (View(), r) == OpenAccount(crypto, old(View()), initialBalance, now)
      ensures r.Err? ==> View() == old(View())
      ensures r.Ok? <==> old(chain) == [] && initialBalance <= MAX_INITIAL_BALANCE_PER_ACCOUNT
      ensures r.Err? ==> r.error == if old(chain) != [] then AccountAlreadyOpen
                                    else SupplyCapExceeded(initialBalance, MAX_INITIAL_BALANCE_PER_ACCOUNT)
      ensures r.Ok? ==> Records(r.value, BlockType.Open(initialBalance), now)
      ensures r.Ok? ==> chain == [r.value] && balance == initialBalance && consumedSources == old(consumedSources)
    {
      ghost var next := OpenAccount(crypto, View(), initialBalance, now);
      assert Consistent(crypto, next.0) by { OpenKeepsConsistent(crypto, View(), initialBalance, now); }
      if chain != [] {
        return Err(AccountAlreadyOpen);
      }
      if initialBalance > MAX_INITIAL_BALANCE_PER_ACCOUNT {
        return Err(SupplyCapExceeded(initialBalance, MAX_INITIAL_BALANCE_PER_ACCOUNT));
      }
      balance := initialBalance;
      nonce := 1;
      var block := crypto.Seal(Content(publicKeyHex, "", BlockType.Open(initialBalance), balance, nonce, now));
      chain := chain + [block];
      assert chain == [block];
      r := Ok(block);
      assert View() == next.0;
      assert (View(), r) == next;
    }

    method Send(destination: string, amount: u64, now: u64) returns (r: Result<Block, Error>)
      requires Valid()
      modifies this
      ensures Valid()
      ensures (View(), r) == SendFunds(crypto, old(View()), destination, amount, now)
      ensures r.Err? ==> View() == old(View())
      ensures r.Ok? <==> destination != publicKeyHex && 0 < amount <= old(balance)
      ensures r.Err? ==> r.error == if amount == 0 then ZeroAmount
                                    else if destination == publicKeyHex then SelfSendNotAllowed
                                    else InsufficientBalance(old(balance), amount)
      ensures r.Ok? ==> Records(r.value, BlockType.Send(destination, amount), now)
      ensures r.Ok? ==> chain == old(chain) + [r.value] && balance == old(balance) - amount
      ensures r.Ok? ==> consumedSources == old(consumedSources)
    {
      ghost var next := SendFunds(crypto, View(), destination, amount, now);
      assert Consistent(crypto, next.0) by { SendKeepsConsistent(crypto, View(), destination, amount, now); }
      if amount == 0 {
        return Err(ZeroAmount);
      }
      if destination == publicKeyHex {
        return Err(SelfSendNotAllowed);
      }
      if balance < amount {
        return Err(InsufficientBalance(balance, amount));
      }
      balance := balance - amount;
      nonce := nonce + 1;
      var previous := if chain == [] then "" else chain[|chain| - 1].hash;
      var block := crypto.Seal(
        Content(publicKeyHex, previous, BlockType.Send(destination, amount), balance, nonce, now));
      chain := chain + [block];
      r := Ok(block);
      assert View() == next.0;
      assert (View(), r) == next;
    }

    method Receive(sendBlock: Block, now: u64) returns (r: Result<Block, Error>)
      requires Valid()
      modifies this
      ensures Valid()
      ensures (View(), r) == ReceiveFunds(crypto, old(View()), sendBlock, now)
      ensures r.Err? ==> View() == old(View())
      ensures r.Ok? <==>
              && sendBlock.kind.Send? && sendBlock.kind.destination == publicKeyHex
              && sendBlock.hash !in old(consumedSources)
              && old(balance) + sendBlock.kind.amount <= MAX_INITIAL_BALANCE_PER_ACCOUNT
      ensures r.Ok? ==> Records(r.value, BlockType.Receive(sendBlock.hash), now)
      ensures r.Ok? ==> chain == old(chain) + [r.value] && balance == old(balance) + sendBlock.kind.amount
      ensures r.Ok? ==> consumedSources == old(consumedSources) + {sendBlock.hash}
    {
      ghost var next := ReceiveFunds(crypto, View(), sendBlock, now);
      assert Consistent(crypto, next.0) by { ReceiveKeepsConsistent(crypto, View(), sendBlock, now); }
      if !sendBlock.kind.Send? {
        return Err(NotSendBlock);
      }
      if sendBlock.kind.destination != publicKeyHex {
        return Err(WrongDestination);
      }
      var amount := sendBlock.kind.amount;
      if sendBlock.hash in consumedSources {
        return Err(DuplicateReceive(sendBlock.hash));
      }
      if balance + amount > U64_MAX {
        return Err(BalanceOverflow(balance, amount));
      }
      var newBalance: u64 := balance + amount;
      if newBalance > MAX_INITIAL_BALANCE_PER_ACCOUNT {
        return Err(SupplyCapExceeded(newBalance, MAX_INITIAL_BALANCE_PER_ACCOUNT));
      }
      balance := newBalance;
      nonce := nonce + 1;
      var previous := if chain == [] then "" else chain[|chain| - 1].hash;
      assert previous == TipHash(chain);
      var block := crypto.Seal(
        Content(publicKeyHex, previous, BlockType.Receive(sendBlock.hash), balance, nonce, now));
      chain := chain + [block];
      consumedSources := consumedSources + {sendBlock.hash};
      r := Ok(block);
      assert block == next.1.value;
      assert View() == next.0;
      assert (View(), r) == next;
    }
  }
}
