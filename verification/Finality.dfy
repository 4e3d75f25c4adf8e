/** Stake-weighted finality and its monotone latch. */
module Finality {
  import opened Common
  import opened Sums
  import opened Bytes
  import Domains
  import NonceRegistry

  const L0_CAP_MICRO_ARX: u64 := 10_000_000
  const FINALITY_CONFIRMATION_DOMAIN: Bytes := Domains.Prefix(Domains.FinalityConfirmation)
  const FINALITY_VALIDATOR_VOTE_DOMAIN: Bytes := Domains.Prefix(Domains.ValidatorVote)

  datatype FinalityError = InvalidSignatureLength | InvalidPublicKey | SignatureInvalid

  datatype Level = Pending | L0 | L1 | L2
  {
    function Rank(): nat {
      match this
      case Pending => 0
      case L0 => 1
      case L1 => 2
      case L2 => 3
    }
  }

  function MaxLevel(a: Level, b: Level): Level {
    if a.Rank() <= b.Rank() then b else a
  }

  /** A signed statement about a block: a node's confirmation or a validator's vote. */
  datatype Signed = Signed(signer: Bytes32, blockHash: Bytes32, signature: Bytes)

  /** What Ed25519 verification, taken as given, says of a key, a message and a signature. */
  datatype Verdict = Genuine | BadKey | BadSignature

  type Verifier = (Bytes32, Bytes, Bytes) -> Verdict

  function Verify(v: Verifier, domain: Bytes, s: Signed): Option<FinalityError> {
    if |s.signature| != 64 then
      Some(InvalidSignatureLength)
    else
      match v(s.signer, domain + s.signer + s.blockHash, s.signature)
      case Genuine => None
      case BadKey => Some(InvalidPublicKey)
      case BadSignature => Some(SignatureInvalid)
  }

  type Registry = map<Bytes32, u64>

  ghost function StakeIn(registry: Registry): Bytes32 -> int {
    (k: Bytes32) => if k in registry then registry[k] else 0
  }

  /** The exact sum of the stakes of some validators. */
  ghost function StakeOf(registry: Registry, validators: set<Bytes32>): int {
    SumOver(validators, StakeIn(registry))
  }

  ghost function ClampedStake(registry: Registry, validators: set<Bytes32>): u64 {
    ClampedSum(validators, StakeIn(registry))
  }

  /** `ValidatorRegistry::total_stake`. */
  method TotalStake(registry: Registry) returns (total: u64)
    ensures total == ClampedStake(registry, registry.Keys)
  {
    total := 0;
    var todo := registry.Keys;
    while todo != {}
      invariant todo <= registry.Keys
      invariant total == ClampedStake(registry, registry.Keys - todo)
      decreases todo
    {
      var k :| k in todo;
      SaturatingFoldStep(registry.Keys - todo, k, StakeIn(registry));
      assert registry.Keys - (todo - {k}) == (registry.Keys - todo) + {k};
      total := SatAdd(total, registry[k]);
      todo := todo - {k};
    }
    assert registry.Keys - todo == registry.Keys;
  }

  /** Statements about another block or from an unknown key are ignored. */
  predicate Relevant(s: Signed, blockHash: Bytes32, registry: Registry) {
    s.blockHash == blockHash && s.signer in registry
  }

  /** The first relevant statement that does not verify decides the error. */
  function FirstFault(
    v: Verifier, domain: Bytes, statements: seq<Signed>, blockHash: Bytes32, registry: Registry): Option<FinalityError>
  {
    if statements == [] then
      None
    else
      var before := FirstFault(v, domain, statements[..|statements| - 1], blockHash, registry);
      var last := statements[|statements| - 1];
      if before.Some? then before
      else if Relevant(last, blockHash, registry) then Verify(v, domain, last)
      else None
  }

  /** The distinct registered keys that spoke about the block. */
  ghost function Signers(statements: seq<Signed>, blockHash: Bytes32, registry: Registry): set<Bytes32> {
    set s | s in statements && Relevant(s, blockHash, registry) :: s.signer
  }

  /** The votes on a block: an error, or the stake of the distinct voters. */
  method CountVotes(v: Verifier, votes: seq<Signed>, blockHash: Bytes32, registry: Registry)
    returns (r: Result<u64, FinalityError>)
    ensures match FirstFault(v, FINALITY_VALIDATOR_VOTE_DOMAIN, votes, blockHash, registry)
      case Some(e) => r == Err(e)
      case None => r == Ok(ClampedStake(registry, Signers(votes, blockHash, registry)))
  {
    var counted: set<Bytes32> := {};
    var accepted: u64 := 0;
    for i := 0 to |votes|
      invariant FirstFault(v, FINALITY_VALIDATOR_VOTE_DOMAIN, votes[..i], blockHash, registry).None?
      invariant counted == Signers(votes[..i], blockHash, registry)
      invariant accepted == ClampedStake(registry, counted)
    {
      var vote := votes[i];
      assert votes[..i + 1] == votes[..i] + [vote];
      SignersStep(votes[..i], vote, blockHash, registry);
      FaultStep(v, FINALITY_VALIDATOR_VOTE_DOMAIN, votes[..i], vote, blockHash, registry);
      if vote.blockHash == blockHash && vote.signer in registry {
        var fault := Verify(v, FINALITY_VALIDATOR_VOTE_DOMAIN, vote);
        if fault.Some? {
          FaultStays(v, FINALITY_VALIDATOR_VOTE_DOMAIN, votes, blockHash, registry, i + 1);
          return Err(fault.value);
        }
        if vote.signer !in counted {
          SaturatingFoldStep(counted, vote.signer, StakeIn(registry));
          counted := counted + {vote.signer};
          accepted := SatAdd(accepted, registry[vote.signer]);
        } else {
          assert counted + {vote.signer} == counted;
        }
      }
    }
    assert votes[..|votes|] == votes;
    r := Ok(accepted);
  }

  lemma SignersStep(statements: seq<Signed>, s: Signed, blockHash: Bytes32, registry: Registry)
    ensures Signers(statements + [s], blockHash, registry) ==
            Signers(statements, blockHash, registry) + (if Relevant(s, blockHash, registry) then {s.signer} else {})
  {
  }

  lemma FaultStep(
    v: Verifier, domain: Bytes, statements: seq<Signed>, s: Signed, blockHash: Bytes32, registry: Registry)
    requires FirstFault(v, domain, statements, blockHash, registry).None?
    ensures FirstFault(v, domain, statements + [s], blockHash, registry) ==
            if Relevant(s, blockHash, registry) then Verify(v, domain, s) else None
  {
    assert (statements + [s])[..|statements|] == statements;
  }

  lemma {:induction false} FaultStays(
    v: Verifier, domain: Bytes, statements: seq<Signed>, blockHash: Bytes32, registry: Registry, n: nat)
    requires n <= |statements| && FirstFault(v, domain, statements[..n], blockHash, registry).Some?
    ensures FirstFault(v, domain, statements, blockHash, registry) ==
            FirstFault(v, domain, statements[..n], blockHash, registry)
    decreases |statements|
  {
    if n == |statements| {
      assert statements[..n] == statements;
    } else {
      var init := statements[..|statements| - 1];
      assert init[..n] == statements[..n];
      FaultStays(v, domain, init, blockHash, registry, n);
    }
  }

  /** Whether an accepted stake reaches the 67% threshold, with the code's saturating multiplications. */
  predicate MeetsQuorum(accepted: u64, total: u64) {
    SatMul(accepted, 100) >= SatMul(total, 67)
  }

  /** The first relevant confirmation alone decides level L0. */
  function FirstConfirmation(
    v: Verifier, confirmations: seq<Signed>, blockHash: Bytes32, registry: Registry): Option<Option<FinalityError>>
  {
    if confirmations == [] then None
    else if Relevant(confirmations[0], blockHash, registry) then
      Some(Verify(v, FINALITY_CONFIRMATION_DOMAIN, confirmations[0]))
    else
      FirstConfirmation(v, confirmations[1..], blockHash, registry)
  }

  /** The level without a quorum. */
  function WithoutQuorum(
    v: Verifier, amount: u64, blockHash: Bytes32, confirmations: seq<Signed>, sync: NonceRegistry.SyncResult,
    registry: Registry): Result<Level, FinalityError>
  {
    if sync.Success? then
      Ok(L1)
    else if amount > L0_CAP_MICRO_ARX then
      Ok(Pending)
    else
      match FirstConfirmation(v, confirmations, blockHash, registry)
      case None => Ok(Pending)
      case Some(None) => Ok(L0)
      case Some(Some(e)) => Err(e)
  }

  /** What `assess_finality` answers. */
  ghost function Assessment(
    v: Verifier, amount: u64, blockHash: Bytes32, confirmations: seq<Signed>, sync: NonceRegistry.SyncResult,
    votes: seq<Signed>, registry: Registry): Result<Level, FinalityError>
  {
    var total := ClampedStake(registry, registry.Keys);
    if total == 0 then
      WithoutQuorum(v, amount, blockHash, confirmations, sync, registry)
    else
      match FirstFault(v, FINALITY_VALIDATOR_VOTE_DOMAIN, votes, blockHash, registry)
      case Some(e) => Err(e)
      case None =>
        if MeetsQuorum(ClampedStake(registry, Signers(votes, blockHash, registry)), total) then Ok(L2)
        else WithoutQuorum(v, amount, blockHash, confirmations, sync, registry)
  }

  method AssessFinality(
    v: Verifier, amount: u64, blockHash: Bytes32, confirmations: seq<Signed>, sync: NonceRegistry.SyncResult,
    votes: seq<Signed>, registry: Registry) returns (r: Result<Level, FinalityError>)
    ensures r == Assessment(v, amount, blockHash, confirmations, sync, votes, registry)
  {
    var total := TotalStake(registry);
    if total > 0 {
      var accepted := CountVotes(v, votes, blockHash, registry);
      if accepted.Err? {
        return Err(accepted.error);
      }
      if SatMul(accepted.value, 100) >= SatMul(total, 67) {
        return Ok(L2);
      }
    }
    if sync.Success? {
      return Ok(L1);
    }
    if amount <= L0_CAP_MICRO_ARX {
      for i := 0 to |confirmations|
        invariant FirstConfirmation(v, confirmations[i..], blockHash, registry) ==
                  FirstConfirmation(v, confirmations, blockHash, registry)
      {
        var confirmation := confirmations[i];
        if confirmation.blockHash == blockHash && confirmation.signer in registry {
          var fault := Verify(v, FINALITY_CONFIRMATION_DOMAIN, confirmation);
          return match fault case Some(e) => Err(e) case None => Ok(L0);
        }
        assert confirmations[i..][1..] == confirmations[i + 1..];
      }
    }
    r := Ok(Pending);
  }

  /** The order and repetition of votes do not matter: without a fault, what counts is the set of distinct
      registered voters; and there is a fault exactly when some relevant vote does not verify. */
  lemma {:induction false} VotesCountAsASet(
    v: Verifier, domain: Bytes, votes: seq<Signed>, blockHash: Bytes32, registry: Registry)
    ensures FirstFault(v, domain, votes, blockHash, registry).None? <==>
            forall s :: s in votes && Relevant(s, blockHash, registry) ==> Verify(v, domain, s).None?
  {
    if votes != [] {
      VotesCountAsASet(v, domain, votes[..|votes| - 1], blockHash, registry);
      assert votes == votes[..|votes| - 1] + [votes[|votes| - 1]];
    }
  }

  lemma SameVotesSameAssessment(
    v: Verifier, amount: u64, blockHash: Bytes32, confirmations: seq<Signed>, sync: NonceRegistry.SyncResult,
    votes: seq<Signed>, votes': seq<Signed>, registry: Registry)
    requires forall s :: s in votes <==> s in votes'
    ensures var r := Assessment(v, amount, blockHash, confirmations, sync, votes, registry);
      var r' := Assessment(v, amount, blockHash, confirmations, sync, votes', registry);
      && (r.Err? <==> r'.Err?)
      && (FirstFault(v, FINALITY_VALIDATOR_VOTE_DOMAIN, votes, blockHash, registry).None? ==> r == r')
  {
    VotesCountAsASet(v, FINALITY_VALIDATOR_VOTE_DOMAIN, votes, blockHash, registry);
    VotesCountAsASet(v, FINALITY_VALIDATOR_VOTE_DOMAIN, votes', blockHash, registry);
    assert Signers(votes, blockHash, registry) == Signers(votes', blockHash, registry);
  }

  // ---- What each level means ----

  /** The statement carries 64 bytes of signature that verify over the domain, the signer and the block. */
  predicate Attests(v: Verifier, domain: Bytes, s: Signed) {
    |s.signature| == 64 && v(s.signer, domain + s.signer + s.blockHash, s.signature) == Genuine
  }

  lemma VerifiedMeansAttests(v: Verifier, domain: Bytes, s: Signed)
    ensures Verify(v, domain, s).None? <==> Attests(v, domain, s)
    ensures Verify(v, domain, s) == Some(InvalidSignatureLength) <==> |s.signature| != 64
    ensures Verify(v, domain, s) == Some(InvalidPublicKey) <==>
            |s.signature| == 64 && v(s.signer, domain + s.signer + s.blockHash, s.signature) == BadKey
  {
  }

  /** Every vote on the block by a registered validator carries a valid signature. */
  predicate VotesAttest(v: Verifier, votes: seq<Signed>, blockHash: Bytes32, registry: Registry) {
    forall s :: s in votes && s.blockHash == blockHash && s.signer in registry ==>
      Attests(v, FINALITY_VALIDATOR_VOTE_DOMAIN, s)
  }

  /** The first confirmation of the block by a registered key. */
  predicate IsFirstConfirmation(confirmations: seq<Signed>, blockHash: Bytes32, registry: Registry, i: nat) {
    && i < |confirmations| && confirmations[i].blockHash == blockHash && confirmations[i].signer in registry
    && forall j :: 0 <= j < i ==> confirmations[j].blockHash != blockHash || confirmations[j].signer !in registry
  }

  lemma {:induction false} FirstConfirmationIs(
    v: Verifier, confirmations: seq<Signed>, blockHash: Bytes32, registry: Registry)
    ensures FirstConfirmation(v, confirmations, blockHash, registry) == None <==>
            forall s :: s in confirmations ==> s.blockHash != blockHash || s.signer !in registry
    ensures forall i: nat :: IsFirstConfirmation(confirmations, blockHash, registry, i) ==>
              FirstConfirmation(v, confirmations, blockHash, registry) ==
              Some(Verify(v, FINALITY_CONFIRMATION_DOMAIN, confirmations[i]))
    ensures FirstConfirmation(v, confirmations, blockHash, registry) == None ||
            exists i: nat :: IsFirstConfirmation(confirmations, blockHash, registry, i)
  {
    if confirmations != [] {
      var rest := confirmations[1..];
      FirstConfirmationIs(v, rest, blockHash, registry);
      assert confirmations == [confirmations[0]] + rest;
      if Relevant(confirmations[0], blockHash, registry) {
        assert IsFirstConfirmation(confirmations, blockHash, registry, 0);
      } else {
        if i: nat :| IsFirstConfirmation(rest, blockHash, registry, i) {
          assert IsFirstConfirmation(confirmations, blockHash, registry, i + 1);
        }
        forall i: nat | IsFirstConfirmation(confirmations, blockHash, registry, i)
          ensures i > 0 && IsFirstConfirmation(rest, blockHash, registry, i - 1)
        {
        }
      }
    }
  }

  /** The block's first confirmation by a registered key exists and carries a valid signature. */
  ghost predicate IsConfirmed(v: Verifier, confirmations: seq<Signed>, blockHash: Bytes32, registry: Registry) {
    exists i: nat :: IsFirstConfirmation(confirmations, blockHash, registry, i) &&
                     Attests(v, FINALITY_CONFIRMATION_DOMAIN, confirmations[i])
  }

  ghost predicate HasConfirmation(confirmations: seq<Signed>, blockHash: Bytes32, registry: Registry) {
    exists s :: s in confirmations && s.blockHash == blockHash && s.signer in registry
  }

  lemma ConfirmedMeans(v: Verifier, confirmations: seq<Signed>, blockHash: Bytes32, registry: Registry)
    ensures var first := FirstConfirmation(v, confirmations, blockHash, registry);
      && (first == Some(None) <==> IsConfirmed(v, confirmations, blockHash, registry))
      && (first == None <==> !HasConfirmation(confirmations, blockHash, registry))
  {
    FirstConfirmationIs(v, confirmations, blockHash, registry);
    forall s ensures Verify(v, FINALITY_CONFIRMATION_DOMAIN, s).None? <==> Attests(v, FINALITY_CONFIRMATION_DOMAIN, s) {
      VerifiedMeansAttests(v, FINALITY_CONFIRMATION_DOMAIN, s);
    }
  }

  lemma NoFaultMeansAttested(v: Verifier, votes: seq<Signed>, blockHash: Bytes32, registry: Registry)
    ensures FirstFault(v, FINALITY_VALIDATOR_VOTE_DOMAIN, votes, blockHash, registry).None? <==>
            VotesAttest(v, votes, blockHash, registry)
  {
    VotesCountAsASet(v, FINALITY_VALIDATOR_VOTE_DOMAIN, votes, blockHash, registry);
    forall s
      ensures Verify(v, FINALITY_VALIDATOR_VOTE_DOMAIN, s).None? <==> Attests(v, FINALITY_VALIDATOR_VOTE_DOMAIN, s)
    {
      VerifiedMeansAttests(v, FINALITY_VALIDATOR_VOTE_DOMAIN, s);
    }
  }

  /** The sum of some stakes as far as a `u64` can show it. */
  ghost function ShownStake(registry: Registry, validators: set<Bytes32>): int {
    Min(SumOver(validators, StakeIn(registry)), U64_MAX)
  }

  /** The quorum test: 100 times the voters' stake against 67 times the total stake, both cut off at the largest
      `u64`. */
  ghost predicate HasQuorum(votes: seq<Signed>, blockHash: Bytes32, registry: Registry) {
    var voters := set s | s in votes && s.blockHash == blockHash && s.signer in registry :: s.signer;
    Min(100 * ShownStake(registry, voters), U64_MAX) >= Min(67 * ShownStake(registry, registry.Keys), U64_MAX)
  }

  lemma QuorumMeans(votes: seq<Signed>, blockHash: Bytes32, registry: Registry)
    ensures HasQuorum(votes, blockHash, registry) <==>
            MeetsQuorum(ClampedStake(registry, Signers(votes, blockHash, registry)),
                        ClampedStake(registry, registry.Keys))
    ensures ClampedStake(registry, registry.Keys) == ShownStake(registry, registry.Keys)
  {
    var voters := set s | s in votes && s.blockHash == blockHash && s.signer in registry :: s.signer;
    assert voters == Signers(votes, blockHash, registry);
    SumNonNegative(voters, StakeIn(registry));
    SumNonNegative(registry.Keys, StakeIn(registry));
  }

  /** Which level is given when. With stake registered, a bad vote is an error and a quorum of the distinct voters
      gives L2. Otherwise agreement of the nonces gives L1; and otherwise, up to 10 ARX, the first confirmation by a
      registered key decides between L0 and an error. All else is pending. */
  lemma LevelMeans(
    v: Verifier, amount: u64, blockHash: Bytes32, confirmations: seq<Signed>, sync: NonceRegistry.SyncResult,
    votes: seq<Signed>, registry: Registry)
    ensures var r := Assessment(v, amount, blockHash, confirmations, sync, votes, registry);
      var staked := ShownStake(registry, registry.Keys) > 0;
      if staked && !VotesAttest(v, votes, blockHash, registry) then
        r.Err?
      else if staked && HasQuorum(votes, blockHash, registry) then
        r == Ok(L2)
      else
        IsLesserLevel(v, amount, blockHash, confirmations, sync, registry, r)
  {
    NoFaultMeansAttested(v, votes, blockHash, registry);
    LesserLevelMeans(v, amount, blockHash, confirmations, sync, registry);
    QuorumMeans(votes, blockHash, registry);
  }

  /** The answer without a quorum. */
  ghost predicate IsLesserLevel(
    v: Verifier, amount: u64, blockHash: Bytes32, confirmations: seq<Signed>, sync: NonceRegistry.SyncResult,
    registry: Registry, r: Result<Level, FinalityError>)
  {
    if sync == NonceRegistry.Success then
      r == Ok(L1)
    else if amount > 10_000_000 || !HasConfirmation(confirmations, blockHash, registry) then
      r == Ok(Pending)
    else if IsConfirmed(v, confirmations, blockHash, registry) then
      r == Ok(L0)
    else
      r.Err?
  }

  lemma LesserLevelMeans(
    v: Verifier, amount: u64, blockHash: Bytes32, confirmations: seq<Signed>, sync: NonceRegistry.SyncResult,
    registry: Registry)
    ensures IsLesserLevel(v, amount, blockHash, confirmations, sync, registry,
                          WithoutQuorum(v, amount, blockHash, confirmations, sync, registry))
  {
    ConfirmedMeans(v, confirmations, blockHash, registry);
  }

  // ---- Quorum intersection ----

  /** The largest value of 67 times the total stake for which the saturating comparison is exact: the least multiple
      of 100 at which the left side saturates. */
  const EXACT_BOUND: int := 18_446_744_073_709_551_700

  /** The saturating comparison decides accepted / total >= 67% correctly for every accepted stake exactly when the
      total stake stays within the bound. */
  lemma QuorumIsExactIff(total: u64)
    ensures (forall accepted: u64 {:trigger MeetsQuorum(accepted, total)} :: accepted <= total ==>
              (MeetsQuorum(accepted, total) <==> accepted * 100 >= total * 67)) <==>
            total * 67 <= EXACT_BOUND
  {
    if total * 67 > EXACT_BOUND {
      assert MeetsQuorum(EXACT_BOUND / 100, total);
    }
  }

  lemma QuorumStake(registry: Registry, voters: set<Bytes32>)
    requires voters <= registry.Keys && ClampedStake(registry, registry.Keys) * 67 <= EXACT_BOUND
    requires MeetsQuorum(ClampedStake(registry, voters), ClampedStake(registry, registry.Keys))
    ensures StakeOf(registry, voters) * 100 >= StakeOf(registry, registry.Keys) * 67
  {
    SumNonNegative(registry.Keys, StakeIn(registry));
    SumNonNegative(voters, StakeIn(registry));
    SumSubset(voters, registry.Keys, StakeIn(registry));
    QuorumIsExactIff(ClampedStake(registry, registry.Keys));
  }

  /** Any two quorums share at least 34% of the total stake. */
  lemma QuorumsIntersect(registry: Registry, voters: set<Bytes32>, voters': set<Bytes32>)
    requires voters <= registry.Keys && voters' <= registry.Keys
    requires ClampedStake(registry, registry.Keys) * 67 <= EXACT_BOUND
    requires MeetsQuorum(ClampedStake(registry, voters), ClampedStake(registry, registry.Keys))
    requires MeetsQuorum(ClampedStake(registry, voters'), ClampedStake(registry, registry.Keys))
    ensures StakeOf(registry, voters * voters') * 100 >= StakeOf(registry, registry.Keys) * 34
  {
    QuorumStake(registry, voters);
    QuorumStake(registry, voters');
    SumInclusionExclusion(voters, voters', StakeIn(registry));
    SumSubset(voters + voters', registry.Keys, StakeIn(registry));
  }

  /** Any two quorums of a registry share at least 34% of its stake. */
  ghost predicate QuorumsMeet(registry: Registry) {
    forall voters, voters' {:trigger BothQuorums(registry, voters, voters')} ::
      BothQuorums(registry, voters, voters') ==>
      StakeOf(registry, voters * voters') * 100 >= StakeOf(registry, registry.Keys) * 34
  }

  ghost predicate BothQuorums(registry: Registry, voters: set<Bytes32>, voters': set<Bytes32>) {
    && voters <= registry.Keys && voters' <= registry.Keys
    && MeetsQuorum(ClampedStake(registry, voters), ClampedStake(registry, registry.Keys))
    && MeetsQuorum(ClampedStake(registry, voters'), ClampedStake(registry, registry.Keys))
  }

  /** The least stake that counts as a quorum once the left side of the comparison saturates. */
  const LEAST_SATURATING: u64 := EXACT_BOUND / 100

  function Key(i: byte): Bytes32 {
    seq(32, _ => i)
  }

  function ThreeValidators(a: u64, b: u64, c: u64): Registry {
    map[Key(0) := a, Key(1) := b, Key(2) := c]
  }

  lemma KeysDiffer()
    ensures Key(0) != Key(1) && Key(0) != Key(2) && Key(1) != Key(2)
  {
    assert Key(0)[0] == 0 && Key(1)[0] == 1 && Key(2)[0] == 2;
  }

  lemma ThreeStakes(a: u64, b: u64, c: u64)
    ensures var r := ThreeValidators(a, b, c);
      && r.Keys == {Key(0), Key(1), Key(2)} && StakeOf(r, r.Keys) == a + b + c
      && StakeOf(r, {Key(0), Key(1)}) == a + b && StakeOf(r, {Key(0), Key(2)}) == a + c
      && StakeOf(r, {Key(0)}) == a && {Key(0), Key(1)} * {Key(0), Key(2)} == {Key(0)}
  {
    var r := ThreeValidators(a, b, c);
    KeysDiffer();
    SumPair(Key(0), Key(1), StakeIn(r));
    SumPair(Key(0), Key(2), StakeIn(r));
    SumAdd({Key(0), Key(1)}, StakeIn(r), Key(2));
    assert {Key(0), Key(1)} + {Key(2)} == r.Keys;
    SumAdd({}, StakeIn(r), Key(0));
    assert {} + {Key(0)} == {Key(0)};
  }

  lemma SaturatingIsQuorum(accepted: u64, total: u64)
    requires accepted >= LEAST_SATURATING
    ensures MeetsQuorum(accepted, total)
  {
  }

  /** Above the bound some registry with a given total has two quorums that share too little. */
  lemma QuorumsCanMiss(total: u64)
    requires total * 67 > EXACT_BOUND
    ensures exists registry: Registry :: StakeOf(registry, registry.Keys) == total && !QuorumsMeet(registry)
  {
    var q := LEAST_SATURATING;
    var common: u64 := if total <= 2 * q then 2 * q - total else 0;
    var first: u64 := q - common;
    var second: u64 := total - q;
    var registry := ThreeValidators(common, first, second);
    ThreeStakes(common, first, second);
    SaturatingIsQuorum(q, total);
    SaturatingIsQuorum(common + second, total);
    assert BothQuorums(registry, {Key(0), Key(1)}, {Key(0), Key(2)});
    assert common * 100 < total * 34;
  }

  /** The bound is exact for intersection, too: in every registry of a given total any two quorums share at least 34%
      if and only if 67 times the total is within the bound. */
  lemma IntersectionIsExactIff(total: u64)
    ensures (forall registry: Registry {:trigger QuorumsMeet(registry)} ::
              StakeOf(registry, registry.Keys) == total ==> QuorumsMeet(registry)) <==>
            total * 67 <= EXACT_BOUND
  {
    if total * 67 <= EXACT_BOUND {
      forall registry: Registry | StakeOf(registry, registry.Keys) == total
        ensures QuorumsMeet(registry)
      {
        forall voters, voters' | BothQuorums(registry, voters, voters')
          ensures StakeOf(registry, voters * voters') * 100 >= StakeOf(registry, registry.Keys) * 34
        {
          QuorumsIntersect(registry, voters, voters');
        }
      }
    } else {
      QuorumsCanMiss(total);
    }
  }

  lemma L2NeedsQuorum(
    v: Verifier, amount: u64, blockHash: Bytes32, confirmations: seq<Signed>, sync: NonceRegistry.SyncResult,
    votes: seq<Signed>, registry: Registry)
    requires Assessment(v, amount, blockHash, confirmations, sync, votes, registry) == Ok(L2)
    ensures Signers(votes, blockHash, registry) <= registry.Keys
    ensures MeetsQuorum(ClampedStake(registry, Signers(votes, blockHash, registry)),
                        ClampedStake(registry, registry.Keys))
    ensures forall s :: s in votes && Relevant(s, blockHash, registry) ==>
      Verify(v, FINALITY_VALIDATOR_VOTE_DOMAIN, s).None?
  {
    VotesCountAsASet(v, FINALITY_VALIDATOR_VOTE_DOMAIN, votes, blockHash, registry);
  }

  /** If two blocks both reach L2 under one registry, the validators that voted for both, with genuine signatures,
      hold at least 34% of the total stake. */
  lemma ConflictingFinalityNeedsDoubleVoters(
    v: Verifier, registry: Registry,
    amount: u64, blockHash: Bytes32, confirmations: seq<Signed>, sync: NonceRegistry.SyncResult, votes: seq<Signed>,
    amount': u64, blockHash': Bytes32, confirmations': seq<Signed>, sync': NonceRegistry.SyncResult,
    votes': seq<Signed>)
    requires ClampedStake(registry, registry.Keys) * 67 <= EXACT_BOUND
    requires Assessment(v, amount, blockHash, confirmations, sync, votes, registry) == Ok(L2)
    requires Assessment(v, amount', blockHash', confirmations', sync', votes', registry) == Ok(L2)
    ensures var both := Signers(votes, blockHash, registry) * Signers(votes', blockHash', registry);
      StakeOf(registry, both) * 100 >= StakeOf(registry, registry.Keys) * 34
  {
    L2NeedsQuorum(v, amount, blockHash, confirmations, sync, votes, registry);
    L2NeedsQuorum(v, amount', blockHash', confirmations', sync', votes', registry);
    QuorumsIntersect(registry, Signers(votes, blockHash, registry), Signers(votes', blockHash', registry));
  }

  /** Beyond the bound the guarantee fails: with two validators of stake 2^63, each one alone is a quorum. */
  lemma SaturatedQuorumsCanBeDisjoint(a: Bytes32, b: Bytes32)
    requires a != b
    ensures var registry: Registry := map[a := 0x8000_0000_0000_0000, b := 0x8000_0000_0000_0000];
      && MeetsQuorum(ClampedStake(registry, {a}), ClampedStake(registry, registry.Keys))
      && MeetsQuorum(ClampedStake(registry, {b}), ClampedStake(registry, registry.Keys))
  {
    var registry: Registry := map[a := 0x8000_0000_0000_0000, b := 0x8000_0000_0000_0000];
    SumAdd({}, StakeIn(registry), a);
    SumAdd({}, StakeIn(registry), b);
    assert {} + {a} == {a} && {} + {b} == {b};
  }

  // ---- The latch ----

  type Latch = map<Bytes32, Level>

  function Seen(latch: Latch, blockHash: Bytes32): Level {
    if blockHash in latch then latch[blockHash] else Pending
  }

  /** Recording one snapshot. */
  function Observe(latch: Latch, blockHash: Bytes32, snapshot: Level): Latch {
    latch[blockHash := MaxLevel(Seen(latch, blockHash), snapshot)]
  }

  function ObserveAll(latch: Latch, snapshots: seq<(Bytes32, Level)>): Latch {
    if snapshots == [] then latch
    else
      var last := snapshots[|snapshots| - 1];
      Observe(ObserveAll(latch, snapshots[..|snapshots| - 1]), last.0, last.1)
  }

  /** The levels in ascending order. */
  lemma LevelsAscend()
    ensures Pending.Rank() < L0.Rank() < L1.Rank() < L2.Rank()
  {
  }

  /** Over any run a block's latched level never falls, and is the highest one observed for it. */
  lemma {:induction false} LatchHoldsTheMaximum(latch: Latch, snapshots: seq<(Bytes32, Level)>, blockHash: Bytes32)
    ensures var now := Seen(ObserveAll(latch, snapshots), blockHash);
      && Seen(latch, blockHash).Rank() <= now.Rank()
      && (forall i :: 0 <= i < |snapshots| && snapshots[i].0 == blockHash ==> snapshots[i].1.Rank() <= now.Rank())
      && (now == Seen(latch, blockHash) ||
          exists i :: 0 <= i < |snapshots| && snapshots[i] == (blockHash, now))
  {
    if snapshots != [] {
      var n := |snapshots| - 1;
      var init := snapshots[..n];
      LatchHoldsTheMaximum(latch, init, blockHash);
      var before := Seen(ObserveAll(latch, init), blockHash);
      var now := Seen(ObserveAll(latch, snapshots), blockHash);
      assert forall i :: 0 <= i < n ==> snapshots[i] == init[i];
      if now != before {
        assert snapshots[n] == (blockHash, now);
      } else if before != Seen(latch, blockHash) {
        var i :| 0 <= i < n && init[i] == (blockHash, before);
        assert snapshots[i] == (blockHash, now);
      }
    }
  }

  class FinalityLatch {
    var seen: Latch

    constructor ()
      ensures seen == map[]
    {
      seen := map[];
    }

    /** On success the latch takes in the snapshot and answers its level; an error leaves it alone. */
    method AssessMonotonic(
      v: Verifier, amount: u64, blockHash: Bytes32, confirmations: seq<Signed>, sync: NonceRegistry.SyncResult,
      votes: seq<Signed>, registry: Registry) returns (r: Result<Level, FinalityError>)
      modifies this
      ensures match Assessment(v, amount, blockHash, confirmations, sync, votes, registry)
        case Err(e) => r == Err(e) && seen == old(seen)
        case Ok(snapshot) => seen == Observe(old(seen), blockHash, snapshot) && r == Ok(Seen(seen, blockHash))
    {
      var snapshot := AssessFinality(v, amount, blockHash, confirmations, sync, votes, registry);
      if snapshot.Err? {
        return snapshot;
      }
      var previous := if blockHash in seen then seen[blockHash] else Pending;
      var latched := if previous.Rank() <= snapshot.value.Rank() then snapshot.value else previous;
      seen := seen[blockHash := latched];
      r := Ok(latched);
    }
  }
}
