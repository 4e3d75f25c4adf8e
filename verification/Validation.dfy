/** Verification of one block and of a whole account chain. */
module Validation {
  import opened Common
  import opened Blocks
  import opened AccountChain

  /** `verify_block`: the hash is recomputed, then the signature over it is checked. */
  function VerifyBlock(c: Crypto, b: Block): Result<(), Error> {
    if !c.validKey(b.account) then
      Err(InvalidKey)
    else if c.digest(b.Body()) != b.hash then
      Err(HashMismatch)
    else if |b.signature| != 64 then
      Err(SignatureInvalid)
    else if !c.verifies(b.account, b.hash, b.signature) then
      Err(SignatureInvalid)
    else
      Ok(())
  }

  /** A block made by the owner of the key that its account is named by. */
  predicate Genuine(c: Crypto, b: Block) {
    && c.validKey(b.account)
    && b.hash == c.digest(b.Body())
    && |b.signature| == 64
    && c.verifies(b.account, b.hash, b.signature)
  }

  /** Verification accepts exactly the genuine blocks, and each error names what is wrong first. */
  lemma VerifiesExactlyTheGenuine(c: Crypto, b: Block)
    ensures VerifyBlock(c, b).Ok? <==> Genuine(c, b)
    ensures VerifyBlock(c, b) == Err(InvalidKey) <==> !c.validKey(b.account)
    ensures VerifyBlock(c, b) == Err(HashMismatch) <==> c.validKey(b.account) && b.hash != c.digest(b.Body())
    ensures VerifyBlock(c, b) == Err(SignatureInvalid) <==>
            !Genuine(c, b) && c.validKey(b.account) && b.hash == c.digest(b.Body())
  {
  }

  /** A chain in good order: it starts with an OPEN, its nonces are 1, 2, ..., every block names the one
      before it, and every block is genuine. */
  ghost predicate Integral(c: Crypto, chain: seq<Block>) {
    forall i :: 0 <= i < |chain| ==> IntegralAt(c, chain, i)
  }

  ghost predicate IntegralAt(c: Crypto, chain: seq<Block>, i: nat)
    requires i < |chain|
  {
    && chain[i].nonce == i + 1
    && chain[i].previous == TipHash(chain[..i])
    && (i == 0 ==> chain[i].kind.Open?)
    && Genuine(c, chain[i])
  }

  /** What is wrong with block `i` of a chain relative to the block before it. */
  function FaultAt(c: Crypto, chain: seq<Block>, i: nat): Result<(), Error>
    requires i < |chain|
  {
    var b := chain[i];
    if i == 0 then
      if b.nonce != 1 || !b.kind.Open? || b.previous != "" then Err(InvalidGenesis) else VerifyBlock(c, b)
    else
      var last := chain[i - 1];
      if b.nonce != last.nonce + 1 then
        Err(NonceGap(i, last.nonce + 1, b.nonce))
      else if b.previous != last.hash then
        Err(HashChainBroken(i))
      else
        VerifyBlock(c, b)
  }

  /** Block-by-block checks against the predecessor only are enough to fix all nonces and links. */
  lemma {:induction false} NoFaultIsIntegral(c: Crypto, chain: seq<Block>, n: nat)
    requires n <= |chain|
    ensures (forall i :: 0 <= i < n ==> FaultAt(c, chain, i).Ok?) <==>
            (forall i :: 0 <= i < n ==> IntegralAt(c, chain, i))
  {
    if n > 0 {
      NoFaultIsIntegral(c, chain, n - 1);
      if forall i :: 0 <= i < n - 1 ==> IntegralAt(c, chain, i) {
        assert n > 1 ==> IntegralAt(c, chain, n - 2);
        assert FaultAt(c, chain, n - 1).Ok? <==> IntegralAt(c, chain, n - 1);
      }
    }
  }

  lemma IntegralIsGenuine(c: Crypto, chain: seq<Block>)
    requires Integral(c, chain)
    ensures forall b :: b in chain ==> Genuine(c, b)
  {
    forall b | b in chain ensures Genuine(c, b) {
      var i :| 0 <= i < |chain| && chain[i] == b;
      assert IntegralAt(c, chain, i);
    }
  }

  /** `verify_chain_integrity` accepts exactly the chains in good order, and otherwise reports the first
      block that is out of order. */
  method VerifyChainIntegrity(c: Crypto, chain: seq<Block>) returns (r: Result<(), Error>)
    ensures r.Ok? <==> Integral(c, chain)
    ensures r.Ok? ==> forall b :: b in chain ==> Genuine(c, b)
    ensures r.Err? ==> exists k :: 0 <= k < |chain| && FaultAt(c, chain, k) == r &&
                                   forall j :: 0 <= j < k ==> IntegralAt(c, chain, j)
  {
    if chain == [] {
      return Ok(());
    }
    NoFaultIsIntegral(c, chain, 1);
    if chain[0].nonce != 1 || !chain[0].kind.Open? || chain[0].previous != "" {
      assert FaultAt(c, chain, 0).Err?;
      return Err(InvalidGenesis);
    }
    var first := VerifyBlock(c, chain[0]);
    if first.Err? {
      assert FaultAt(c, chain, 0).Err?;
      return first;
    }
    for i := 1 to |chain|
      invariant forall j :: 0 <= j < i ==> FaultAt(c, chain, j).Ok?
    {
      NoFaultIsIntegral(c, chain, i);
      NoFaultIsIntegral(c, chain, i + 1);
      if chain[i].nonce != chain[i - 1].nonce + 1 {
        assert FaultAt(c, chain, i).Err?;
        return Err(NonceGap(i, chain[i - 1].nonce + 1, chain[i].nonce));
      }
      if chain[i].previous != chain[i - 1].hash {
        assert FaultAt(c, chain, i).Err?;
        return Err(HashChainBroken(i));
      }
      var v := VerifyBlock(c, chain[i]);
      if v.Err? {
        assert FaultAt(c, chain, i).Err?;
        return v;
      }
    }
    NoFaultIsIntegral(c, chain, |chain|);
    IntegralIsGenuine(c, chain);
    r := Ok(());
  }
}
