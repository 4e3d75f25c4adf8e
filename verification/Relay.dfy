/** Relay reputation: receipts, the lifetime score and the rolling window of timestamped events. */
module Relay {
  import opened Common
  import opened Bytes
  import Domains
  import Hex

  const RELAY_RECEIPT_DOMAIN: Bytes := Domains.Prefix(Domains.RelayReceipt)
  const MAX_HOPS_PER_RECEIPT: byte := 16
  const ROLLING_WINDOW_MS: u64 := 30 * 86_400_000
  const ROLLING_BASELINE: int := 100
  const SUCCESS_DELTA: int := 1
  const FAILURE_DELTA: int := -5

  datatype ReceiptError =
    | HopCountTooHigh(got: byte)
    | InvalidRelayId
    | InvalidMessageHash
    | InvalidSignatureLength
    | InvalidPublicKey
    | SignatureInvalid
    | WrongRelayId
    | DuplicateReceipt

  /** Ed25519 verification (section 5.1.7 of RFC 8032), taken as given: public key, message, signature. */
  datatype Outcome = Valid | BadKey | BadSignature

  type Verifier = (Bytes32, Bytes, Bytes) -> Outcome

  datatype Receipt = Receipt(relayId: string, messageHash: string, timestamp: u64, signature: Bytes, hopCount: byte)

  function DecodeHex32(s: string): Option<Bytes32> {
    match Hex.Decode(s)
    case None => None
    case Some(v) => if |v| == 32 then Some(v) else None
  }

  /** `canonical_message`. */
  function CanonicalMessage(r: Receipt): Result<Bytes, ReceiptError> {
    match DecodeHex32(r.relayId)
    case None => Err(InvalidRelayId)
    case Some(key) =>
      match DecodeHex32(r.messageHash)
      case None => Err(InvalidMessageHash)
      case Some(hash) => Ok(RELAY_RECEIPT_DOMAIN + key + hash + Be8(r.timestamp) + [r.hopCount])
  }

  function VerifyReceipt(v: Verifier, r: Receipt): Result<(), ReceiptError> {
    if r.hopCount > MAX_HOPS_PER_RECEIPT then
      Err(HopCountTooHigh(r.hopCount))
    else
      match CanonicalMessage(r)
      case Err(e) => Err(e)
      case Ok(message) =>
        if |r.signature| != 64 then
          Err(InvalidSignatureLength)
        else
          match v(DecodeHex32(r.relayId).value, message, r.signature)
          case Valid => Ok(())
          case BadKey => Err(InvalidPublicKey)
          case BadSignature => Err(SignatureInvalid)
  }

  /** A signature binds the relay, the message, the time and the hop count of a receipt, up to the case of the
      hexadecimal digits. */
  lemma CanonicalMessageIsInjective(r: Receipt, q: Receipt)
    requires CanonicalMessage(r).Ok? && CanonicalMessage(r) == CanonicalMessage(q)
    ensures DecodeHex32(r.relayId) == DecodeHex32(q.relayId)
    ensures DecodeHex32(r.messageHash) == DecodeHex32(q.messageHash)
    ensures r.timestamp == q.timestamp && r.hopCount == q.hopCount
  {
    var d := |RELAY_RECEIPT_DOMAIN|;
    var x, y := CanonicalMessage(r).value, CanonicalMessage(q).value;
    assert DecodeHex32(r.relayId).value == x[d..d + 32] == y[d..d + 32] == DecodeHex32(q.relayId).value;
    assert DecodeHex32(r.messageHash).value == x[d + 32..d + 64] == y[d + 32..d + 64]
           == DecodeHex32(q.messageHash).value;
    assert Be8(r.timestamp) == x[d + 64..d + 72] == y[d + 64..d + 72] == Be8(q.timestamp);
    assert [r.hopCount] == x[d + 72..] == y[d + 72..] == [q.hopCount];
  }

  /** The bytes a relay signs for a key, a message, a time and a hop count. */
  function SignedBytes(key: Bytes32, hash: Bytes32, timestamp: u64, hopCount: byte): (s: Bytes)
    ensures s == RELAY_RECEIPT_DOMAIN + key + hash + Be8(timestamp) + [hopCount]
  {
    RELAY_RECEIPT_DOMAIN + key + hash + Be8(timestamp) + [hopCount]
  }

  /** The relay whose key the receipt names passed on this message: at most 16 hops, and 64 bytes of signature that
      verify over its key, the message, the time and the hops. */
  predicate Authentic(v: Verifier, r: Receipt, key: Bytes32, hash: Bytes32) {
    && Hex.Decode(r.relayId) == Some(key) && Hex.Decode(r.messageHash) == Some(hash)
    && r.hopCount <= 16 && |r.signature| == 64
    && v(key, SignedBytes(key, hash, r.timestamp, r.hopCount), r.signature) == Valid
  }

  /** A receipt verifies exactly when it is authentic for some relay and message. */
  lemma VerifiesExactlyTheAuthentic(v: Verifier, r: Receipt)
    ensures VerifyReceipt(v, r).Ok? <==> exists key, hash :: Authentic(v, r, key, hash)
    ensures VerifyReceipt(v, r) == Err(HopCountTooHigh(r.hopCount)) <==> r.hopCount > 16
  {
    if VerifyReceipt(v, r).Ok? {
      assert Authentic(v, r, DecodeHex32(r.relayId).value, DecodeHex32(r.messageHash).value);
    }
  }

  /** A receipt is credited exactly when it is of this relay and authentic for a message not credited before. */
  lemma CreditsExactlyTheNew(v: Verifier, id: string, credited: set<Bytes32>, r: Receipt)
    ensures var gates := Gates(v, id, credited, r);
      && (gates.Ok? <==> r.relayId == id && exists key, hash :: Authentic(v, r, key, hash) && hash !in credited)
      && (gates.Ok? ==> Hex.Decode(r.messageHash) == Some(gates.value))
      && (gates == Err(WrongRelayId) <==> r.relayId != id)
      && (gates == Err(DuplicateReceipt) <==>
            r.relayId == id && exists key, hash :: Authentic(v, r, key, hash) && hash in credited)
  {
    VerifiesExactlyTheAuthentic(v, r);
  }

  // ---- The score ----

  datatype Event = Event(time: u64, delta: int)

  datatype Score = Score(
    score: int, relayed: nat, failed: nat, credited: set<Bytes32>, rolling: seq<Event>)

  const NEW_SCORE := Score(100, 0, 0, {}, [])

  datatype Op =
    | Success(receipt: Receipt)
    | Failure
    | SuccessAt(receipt: Receipt, now: u64)
    | FailureAt(now: u64)
    | Prune(now: u64)

  /** Where the window that ends at `now` begins. */
  function Cutoff(now: u64): u64 {
    SatSub(now, ROLLING_WINDOW_MS)
  }

  /** Dropping events from the front while they are too old. */
  function Pruned(rolling: seq<Event>, now: u64): seq<Event> {
    if rolling == [] || rolling[0].time >= Cutoff(now) then rolling else Pruned(rolling[1..], now)
  }

  /** The receipt's gates: this relay, authentic, and not credited before. */
  function Gates(v: Verifier, id: string, credited: set<Bytes32>, r: Receipt): Result<Bytes32, ReceiptError> {
    if r.relayId != id then
      Err(WrongRelayId)
    else if VerifyReceipt(v, r).Err? then
      Err(VerifyReceipt(v, r).error)
    else if DecodeHex32(r.messageHash).value in credited then
      Err(DuplicateReceipt)
    else
      Ok(DecodeHex32(r.messageHash).value)
  }

  function Succeeded(v: Verifier, id: string, s: Score, r: Receipt): Score {
    match Gates(v, id, s.credited, r)
    case Err(_) => s
    case Ok(hash) => s.(score := s.score + 1, relayed := s.relayed + 1, credited := s.credited + {hash})
  }

  function Failed(s: Score): Score {
    s.(score := s.score - 5, failed := s.failed + 1)
  }

  function Noted(s: Score, now: u64, delta: int): Score {
    s.(rolling := Pruned(s.rolling + [Event(now, delta)], now))
  }

  function Apply(v: Verifier, id: string, s: Score, op: Op): Score {
    match op
    case Success(r) => Succeeded(v, id, s, r)
    case Failure => Failed(s)
    case SuccessAt(r, now) =>
      if Gates(v, id, s.credited, r).Err? then s else Noted(Succeeded(v, id, s, r), now, SUCCESS_DELTA)
    case FailureAt(now) => Noted(Failed(s), now, FAILURE_DELTA)
    case Prune(now) => s.(rolling := Pruned(s.rolling, now))
  }

  function Run(v: Verifier, id: string, ops: seq<Op>): Score {
    if ops == [] then NEW_SCORE else Apply(v, id, Run(v, id, ops[..|ops| - 1]), ops[|ops| - 1])
  }

  /** The deltas of the events at or after a time. */
  function DeltasSince(events: seq<Event>, from: u64): int {
    if events == [] then 0
    else
      var last := events[|events| - 1];
      DeltasSince(events[..|events| - 1], from) + (if last.time >= from then last.delta else 0)
  }

  /** `rolling_score`. */
  function RollingScore(rolling: seq<Event>, now: u64): int {
    ROLLING_BASELINE + DeltasSince(rolling, Cutoff(now))
  }

  // ---- What a list of operations amounts to, told without a score ----

  /** The message an operation brings an authentic receipt of this relay for. */
  function Proves(v: Verifier, id: string, op: Op): Option<Bytes32> {
    if (op.Success? || op.SuccessAt?) && op.receipt.relayId == id && VerifyReceipt(v, op.receipt).Ok? then
      DecodeHex32(op.receipt.messageHash)
    else
      None
  }

  /** The distinct messages with an authentic receipt. */
  function ProvenMessages(v: Verifier, id: string, ops: seq<Op>): set<Bytes32> {
    if ops == [] then {}
    else
      var p := Proves(v, id, ops[|ops| - 1]);
      ProvenMessages(v, id, ops[..|ops| - 1]) + (if p.Some? then {p.value} else {})
  }

  function Failures(ops: seq<Op>): nat {
    if ops == [] then 0
    else
      var last := ops[|ops| - 1];
      Failures(ops[..|ops| - 1]) + (if last.Failure? || last.FailureAt? then 1 else 0)
  }

  /** The timestamped event of an operation: a timestamped failure, or a timestamped receipt that is the first
      authentic one for its message. */
  function EventOf(v: Verifier, id: string, proven: set<Bytes32>, op: Op): seq<Event> {
    match op
    case FailureAt(now) => [Event(now, FAILURE_DELTA)]
    case SuccessAt(_, now) =>
      var p := Proves(v, id, op);
      if p.Some? && p.value !in proven then [Event(now, SUCCESS_DELTA)] else []
    case _ => []
  }

  /** Every timestamped event there ever was. */
  function History(v: Verifier, id: string, ops: seq<Op>): seq<Event> {
    if ops == [] then []
    else
      var init := ops[..|ops| - 1];
      History(v, id, init) + EventOf(v, id, ProvenMessages(v, id, init), ops[|ops| - 1])
  }

  function TimeOf(op: Op): u64 {
    if op.Success? || op.Failure? then 0 else op.now
  }

  /** The latest time any operation used. */
  function Horizon(ops: seq<Op>): (t: u64)
    ensures forall op :: op in ops ==> TimeOf(op) <= t
  {
    if ops == [] then 0
    else
      var init, last := ops[..|ops| - 1], ops[|ops| - 1];
      assert ops == init + [last];
      if Horizon(init) <= TimeOf(last) then TimeOf(last) else Horizon(init)
  }

  /** The buffer is the end of the history, and everything before it is older than the window at `horizon`. */
  ghost predicate IsRecentPart(rolling: seq<Event>, history: seq<Event>, horizon: u64) {
    && |rolling| <= |history|
    && var dropped := |history| - |rolling|;
    && rolling == history[dropped..]
    && forall i :: 0 <= i < dropped ==> history[i].time < Cutoff(horizon)
  }

  lemma {:induction false} PruningKeepsRecentPart(
    rolling: seq<Event>, history: seq<Event>, horizon: u64, now: u64)
    requires IsRecentPart(rolling, history, horizon) && now <= horizon
    ensures IsRecentPart(Pruned(rolling, now), history, horizon)
  {
    if rolling != [] && rolling[0].time < Cutoff(now) {
      PruningKeepsRecentPart(rolling[1..], history, horizon, now);
    }
  }

  lemma AppendingKeepsRecentPart(rolling: seq<Event>, history: seq<Event>, horizon: u64, later: u64, e: seq<Event>)
    requires IsRecentPart(rolling, history, horizon) && horizon <= later
    ensures IsRecentPart(rolling + e, history + e, later)
  {
  }

  lemma {:induction false} OldEventsDoNotCount(events: seq<Event>, from: u64)
    requires forall i :: 0 <= i < |events| ==> events[i].time < from
    ensures DeltasSince(events, from) == 0
  {
    if events != [] {
      OldEventsDoNotCount(events[..|events| - 1], from);
    }
  }

  lemma {:induction false} DeltasAdd(a: seq<Event>, b: seq<Event>, from: u64)
    ensures DeltasSince(a + b, from) == DeltasSince(a, from) + DeltasSince(b, from)
  {
    if b == [] {
      assert a + b == a;
    } else {
      var init, last := b[..|b| - 1], b[|b| - 1];
      DeltasAdd(a, init, from);
      assert (a + b)[..|a + b| - 1] == a + init;
    }
  }

  /** The gates let through exactly the first proof of a message. */
  lemma GatesCheckProof(v: Verifier, id: string, credited: set<Bytes32>, op: Op)
    requires op.Success? || op.SuccessAt?
    ensures var p := Proves(v, id, op);
      var gates := Gates(v, id, credited, op.receipt);
      && (gates.Ok? <==> p.Some? && p.value !in credited)
      && (gates.Ok? ==> gates.value == p.value)
  {
  }

  /** What one operation does to the lifetime counters. */
  lemma OneOpCounts(v: Verifier, id: string, s: Score, op: Op)
    requires s.relayed == |s.credited| && s.score == 100 + s.relayed - 5 * s.failed
    ensures var t := Apply(v, id, s, op);
      var p := Proves(v, id, op);
      && t.credited == s.credited + (if p.Some? then {p.value} else {})
      && t.relayed == |t.credited|
      && t.failed == s.failed + (if op.Failure? || op.FailureAt? then 1 else 0)
      && t.score == 100 + t.relayed - 5 * t.failed
  {
    if op.Success? || op.SuccessAt? {
      GatesCheckProof(v, id, s.credited, op);
      SuccessCounts(v, id, s, op.receipt);
    }
  }

  lemma SuccessCounts(v: Verifier, id: string, s: Score, r: Receipt)
    requires s.relayed == |s.credited|
    ensures var t := Succeeded(v, id, s, r);
      var gates := Gates(v, id, s.credited, r);
      && t.relayed == |t.credited| && t.failed == s.failed
      && t.score - t.relayed == s.score - s.relayed
      && t.credited == s.credited + (if gates.Ok? then {gates.value} else {})
  {
  }

  /** What one operation does to the buffer. */
  lemma OneOpBuffers(v: Verifier, id: string, s: Score, op: Op)
    ensures var e := EventOf(v, id, s.credited, op);
      var rolling := Apply(v, id, s, op).rolling;
      rolling == s.rolling + e || rolling == Pruned(s.rolling + e, TimeOf(op))
  {
    if op.Success? || op.SuccessAt? {
      GatesCheckProof(v, id, s.credited, op);
    }
    assert s.rolling + [] == s.rolling;
  }

  /** What is credited is exactly what was proven, however often and in whatever hexadecimal case, and the lifetime
      score is a fixed function of the distinct messages proven and the failures. */
  lemma {:induction false} EachMessageIsCreditedOnce(v: Verifier, id: string, ops: seq<Op>)
    ensures var s := Run(v, id, ops);
      && s.credited == ProvenMessages(v, id, ops)
      && s.relayed == |s.credited|
      && s.failed == Failures(ops)
      && s.score == 100 + s.relayed - 5 * s.failed
  {
    if ops != [] {
      var init, last := ops[..|ops| - 1], ops[|ops| - 1];
      EachMessageIsCreditedOnce(v, id, init);
      OneOpCounts(v, id, Run(v, id, init), last);
    }
  }

  /** In every run the buffer is the recent part of the whole history. */
  lemma {:induction false} BufferIsRecentPart(v: Verifier, id: string, ops: seq<Op>)
    ensures IsRecentPart(Run(v, id, ops).rolling, History(v, id, ops), Horizon(ops))
  {
    if ops != [] {
      var init, op := ops[..|ops| - 1], ops[|ops| - 1];
      var s := Run(v, id, init);
      BufferIsRecentPart(v, id, init);
      EachMessageIsCreditedOnce(v, id, init);
      OneOpBuffers(v, id, s, op);
      var e := EventOf(v, id, s.credited, op);
      AppendingKeepsRecentPart(s.rolling, History(v, id, init), Horizon(init), Horizon(ops), e);
      PruningKeepsRecentPart(s.rolling + e, History(v, id, init) + e, Horizon(ops), TimeOf(op));
    }
  }

  /** The rolling score at a time is what the whole history of the run gives. */
  ghost predicate Agrees(v: Verifier, id: string, ops: seq<Op>, now: u64) {
    RollingScore(Run(v, id, ops).rolling, now) == ROLLING_BASELINE + DeltasSince(History(v, id, ops), Cutoff(now))
  }

  /** Pruning does not show at a time whose window begins no earlier than the window at the latest time used, even if
      the times used were out of order. */
  lemma PruningNeverShows(v: Verifier, id: string, ops: seq<Op>, now: u64)
    requires Cutoff(Horizon(ops)) <= Cutoff(now)
    ensures Agrees(v, id, ops, now)
  {
    BufferIsRecentPart(v, id, ops);
    RecentPartSuffices(Run(v, id, ops).rolling, History(v, id, ops), Horizon(ops), Cutoff(now));
  }

  lemma RecentPartSuffices(rolling: seq<Event>, history: seq<Event>, horizon: u64, from: u64)
    requires IsRecentPart(rolling, history, horizon) && Cutoff(horizon) <= from
    ensures DeltasSince(rolling, from) == DeltasSince(history, from)
  {
    var dropped := |history| - |rolling|;
    OldEventsDoNotCount(history[..dropped], from);
    DeltasAdd(history[..dropped], rolling, from);
    assert history == history[..dropped] + rolling;
  }

  /** A failure that was pruned since is missing from the score of a time whose window it belongs to. */
  lemma EarlierTimesMissEvents(v: Verifier, id: string, horizon: u64, now: u64)
    requires Cutoff(now) < Cutoff(horizon)
    ensures var ops := [FailureAt(Cutoff(now)), Prune(horizon)];
      && Horizon(ops) == horizon
      && RollingScore(Run(v, id, ops).rolling, now) == 100
      && ROLLING_BASELINE + DeltasSince(History(v, id, ops), Cutoff(now)) == 95
  {
    var t := Cutoff(now);
    var e := Event(t, FAILURE_DELTA);
    var one, ops := [FailureAt(t)], [FailureAt(t), Prune(horizon)];
    assert ops[..1] == one && one[..0] == [];
    assert Horizon(one) == t && Horizon(ops) == horizon;
    assert [] + [e] == [e] && [e] + [] == [e];
    assert Run(v, id, one).rolling == Pruned([e], t) == [e];
    assert Run(v, id, ops).rolling == Pruned([e], horizon) == [];
    assert History(v, id, one) == [e] && History(v, id, ops) == [e];
    assert [e][..0] == [] && DeltasSince([e], t) == FAILURE_DELTA;
  }

  /** Exactly when pruning can show: all runs whose latest time is `horizon` agree with their full history at `now` if
      and only if the window at `now` begins no earlier than the window at `horizon`. */
  lemma AgreementIsExact(v: Verifier, id: string, horizon: u64, now: u64)
    ensures (forall ops {:trigger Agrees(v, id, ops, now)} :: Horizon(ops) == horizon ==> Agrees(v, id, ops, now)) <==>
            Cutoff(horizon) <= Cutoff(now)
  {
    if Cutoff(horizon) <= Cutoff(now) {
      forall ops | Horizon(ops) == horizon
        ensures Agrees(v, id, ops, now)
      {
        PruningNeverShows(v, id, ops, now);
      }
    } else {
      EarlierTimesMissEvents(v, id, horizon, now);
      assert !Agrees(v, id, [FailureAt(Cutoff(now)), Prune(horizon)], now);
    }
  }

  /** The positions of the successes, or of the failures, in the window of 30 days that ends at `now`; events later than
      `now` count, too. */
  ghost function Positions(events: seq<Event>, success: bool, now: u64): set<int> {
    set i | 0 <= i < |events| && (events[i].delta == 1 <==> success) && events[i].time + 2_592_000_000 >= now
  }

  /** The rolling score is 100 plus one for each success and minus five for each failure of the window. */
  lemma {:induction false} RollingScoreCounts(events: seq<Event>, now: u64)
    requires forall e :: e in events ==> e.delta == 1 || e.delta == -5
    ensures RollingScore(events, now) == 100 + |Positions(events, true, now)| - 5 * |Positions(events, false, now)|
  {
    if events == [] {
      assert Positions(events, true, now) == {} && Positions(events, false, now) == {};
    } else {
      var init, last := events[..|events| - 1], events[|events| - 1];
      RollingScoreCounts(init, now);
      PositionsStep(init, last, true, now);
      PositionsStep(init, last, false, now);
      assert events == init + [last];
    }
  }

  lemma PositionsStep(init: seq<Event>, last: Event, success: bool, now: u64)
    ensures |Positions(init + [last], success, now)| ==
            |Positions(init, success, now)| +
            (if (last.delta == 1 <==> success) && last.time + 2_592_000_000 >= now then 1 else 0)
  {
    var before, after := Positions(init, success, now), Positions(init + [last], success, now);
    forall i ensures i in before <==> i in after && i < |init| {
    }
    if (last.delta == 1 <==> success) && last.time + 2_592_000_000 >= now {
      assert after == before + {|init|};
    } else {
      assert after == before;
    }
  }

  /** An operation brings an authentic receipt of this relay for the message. */
  ghost predicate Brings(v: Verifier, id: string, op: Op, hash: Bytes32) {
    (op.Success? || op.SuccessAt?) && op.receipt.relayId == id && exists key :: Authentic(v, op.receipt, key, hash)
  }

  lemma ProvesWhatItBrings(v: Verifier, id: string, op: Op, hash: Bytes32)
    ensures Proves(v, id, op) == Some(hash) <==> Brings(v, id, op, hash)
  {
    if op.Success? || op.SuccessAt? {
      VerifiesExactlyTheAuthentic(v, op.receipt);
    }
  }

  /** The messages proven over a run are those that some operation brings an authentic receipt for. */
  lemma {:induction false} ProvenMeansBrought(v: Verifier, id: string, ops: seq<Op>, hash: Bytes32)
    ensures hash in ProvenMessages(v, id, ops) <==> exists op :: op in ops && Brings(v, id, op, hash)
  {
    if ops != [] {
      var init, last := ops[..|ops| - 1], ops[|ops| - 1];
      ProvenMeansBrought(v, id, init, hash);
      ProvesWhatItBrings(v, id, last, hash);
      assert ops == init + [last];
    }
  }

  /** The failures of a run, counted. */
  lemma {:induction false} FailuresAreCounted(ops: seq<Op>)
    ensures Failures(ops) == |FailuresAt(ops)|
  {
    if ops == [] {
      assert FailuresAt(ops) == {};
    } else {
      var init, last := ops[..|ops| - 1], ops[|ops| - 1];
      FailuresAreCounted(init);
      assert ops == init + [last];
      forall i ensures i in FailuresAt(init) <==> i in FailuresAt(ops) && i < |init| {
      }
      assert FailuresAt(ops) == FailuresAt(init) + (if last.Failure? || last.FailureAt? then {|init|} else {});
    }
  }

  ghost function FailuresAt(ops: seq<Op>): set<int> {
    set i | 0 <= i < |ops| && (ops[i].Failure? || ops[i].FailureAt?)
  }

  /** What each operation adds to the history: a timestamped failure counts minus five; a timestamped success counts
      one if its receipt is authentic and no earlier operation brought one for its message; nothing else counts. */
  lemma HistoryGrows(v: Verifier, id: string, ops: seq<Op>, op: Op)
    ensures var before, after := History(v, id, ops), History(v, id, ops + [op]);
      after ==
      if op.FailureAt? then before + [Event(op.now, -5)]
      else if op.SuccessAt? && IsFirst(v, id, ops, op) then before + [Event(op.now, 1)]
      else before
  {
    assert (ops + [op])[..|ops|] == ops;
    var p := Proves(v, id, op);
    assert History(v, id, ops) + [] == History(v, id, ops);
    forall hash ensures p == Some(hash) <==> Brings(v, id, op, hash) {
      ProvesWhatItBrings(v, id, op, hash);
    }
    if p.Some? {
      ProvenMeansBrought(v, id, ops, p.value);
    }
  }

  ghost predicate IsFirst(v: Verifier, id: string, ops: seq<Op>, op: Op) {
    exists hash :: Brings(v, id, op, hash) && forall earlier :: earlier in ops ==> !Brings(v, id, earlier, hash)
  }

  /** Pruning drops the leading events that are older than 30 days and stops at the first that is not. */
  lemma {:induction false} PrunedMeans(rolling: seq<Event>, now: u64)
    ensures var kept := Pruned(rolling, now);
      var dropped := |rolling| - |kept|;
      && 0 <= dropped <= |rolling| && kept == rolling[dropped..]
      && (forall i :: 0 <= i < dropped ==> rolling[i].time + 2_592_000_000 < now)
      && (kept != [] ==> kept[0].time + 2_592_000_000 >= now)
  {
    if rolling != [] && rolling[0].time < Cutoff(now) {
      PrunedMeans(rolling[1..], now);
      assert forall i :: 0 < i < |rolling| ==> rolling[i] == rolling[1..][i - 1];
    }
  }

  /** Every event of a run is a success or a failure. */
  lemma {:induction false} HistoryDeltas(v: Verifier, id: string, ops: seq<Op>)
    ensures forall e :: e in History(v, id, ops) ==> e.delta == 1 || e.delta == -5
  {
    if ops != [] {
      HistoryDeltas(v, id, ops[..|ops| - 1]);
    }
  }

  class RelayScore {
    const relayId: string
    const verifier: Verifier
    var score: int
    var messagesRelayed: nat
    var messagesFailed: nat
    var creditedMessages: set<Bytes32>
    var rollingEvents: seq<Event>
    /** Every operation so far. */
    ghost var ops: seq<Op>

    ghost function View(): Score
      reads this
    {
      Score(score, messagesRelayed, messagesFailed, creditedMessages, rollingEvents)
    }

    ghost predicate Valid()
      reads this
    {
      View() == Run(verifier, relayId, ops)
    }

    constructor (relayId: string, verifier: Verifier)
      ensures Valid() && this.relayId == relayId && this.verifier == verifier && View() == NEW_SCORE && ops == []
    {
      this.relayId, this.verifier := relayId, verifier;
      score, messagesRelayed, messagesFailed, creditedMessages, rollingEvents := 100, 0, 0, {}, [];
      ops := [];
    }

    /** The gates and the lifetime counters. */
    method Credit(receipt: Receipt) returns (r: Result<(), ReceiptError>)
      modifies this`score, this`messagesRelayed, this`creditedMessages
      ensures View() == Succeeded(verifier, relayId, old(View()), receipt)
      ensures var gates := Gates(verifier, relayId, old(creditedMessages), receipt);
        r == (if gates.Ok? then Ok(()) else Err(gates.error))
    {
      if receipt.relayId != relayId {
        return Err(WrongRelayId);
      }
      var verified := VerifyReceipt(verifier, receipt);
      if verified.Err? {
        return verified;
      }
      var hash := DecodeHex32(receipt.messageHash);
      if hash.value in creditedMessages {
        return Err(DuplicateReceipt);
      }
      creditedMessages := creditedMessages + {hash.value};
      messagesRelayed := messagesRelayed + 1;
      score := score + 1;
      return Ok(());
    }

    /** `prune_rolling`. */
    method DropOld(now: u64)
      modifies this`rollingEvents
      ensures rollingEvents == Pruned(old(rollingEvents), now)
    {
      var cutoff := Cutoff(now);
      while rollingEvents != [] && rollingEvents[0].time < cutoff
        invariant Pruned(rollingEvents, now) == Pruned(old(rollingEvents), now)
        decreases |rollingEvents|
      {
        rollingEvents := rollingEvents[1..];
      }
    }

    /** Appending a timestamped event, then pruning. */
    method Note(now: u64, delta: int)
      modifies this`rollingEvents
      ensures View() == Noted(old(View()), now, delta)
    {
      rollingEvents := rollingEvents + [Event(now, delta)];
      DropOld(now);
    }

    /** `record_success`: an error leaves everything as it was. */
    method RecordSuccess(receipt: Receipt) returns (r: Result<(), ReceiptError>)
      requires Valid()
      modifies this
      ensures Valid() && ops == old(ops) + [Success(receipt)]
      ensures r.Ok? <==> Gates(verifier, relayId, old(creditedMessages), receipt).Ok?
      ensures r.Err? ==> View() == old(View()) && r.error == Gates(verifier, relayId, creditedMessages, receipt).error
      ensures r.Ok? <==>
              receipt.relayId == relayId &&
              exists key, hash :: Authentic(verifier, receipt, key, hash) && hash !in old(creditedMessages)
    {
      CreditsExactlyTheNew(verifier, relayId, creditedMessages, receipt);
      r := Credit(receipt);
      ops := ops + [Success(receipt)];
      assert ops[..|ops| - 1] == old(ops);
    }

    method RecordFailure()
      requires Valid()
      modifies this
      ensures Valid() && ops == old(ops) + [Failure]
    {
      messagesFailed := messagesFailed + 1;
      score := score - 5;
      ops := ops + [Failure];
      assert ops[..|ops| - 1] == old(ops);
    }

    /** `record_success_at`: an error leaves the buffer as it was, too. */
    method RecordSuccessAt(receipt: Receipt, now: u64) returns (r: Result<(), ReceiptError>)
      requires Valid()
      modifies this
      ensures Valid() && ops == old(ops) + [SuccessAt(receipt, now)]
      ensures r.Ok? <==> Gates(verifier, relayId, old(creditedMessages), receipt).Ok?
      ensures r.Err? ==> View() == old(View()) && r.error == Gates(verifier, relayId, creditedMessages, receipt).error
      ensures r.Ok? <==>
              receipt.relayId == relayId &&
              exists key, hash :: Authentic(verifier, receipt, key, hash) && hash !in old(creditedMessages)
    {
      CreditsExactlyTheNew(verifier, relayId, creditedMessages, receipt);
      r := Credit(receipt);
      ops := ops + [SuccessAt(receipt, now)];
      assert ops[..|ops| - 1] == old(ops);
      if r.Err? {
        return;
      }
      Note(now, SUCCESS_DELTA);
    }

    method RecordFailureAt(now: u64)
      requires Valid()
      modifies this
      ensures Valid() && ops == old(ops) + [FailureAt(now)]
    {
      messagesFailed := messagesFailed + 1;
      score := score - 5;
      Note(now, FAILURE_DELTA);
      ops := ops + [FailureAt(now)];
      assert ops[..|ops| - 1] == old(ops);
    }

    method PruneRolling(now: u64)
      requires Valid()
      modifies this
      ensures Valid() && ops == old(ops) + [Prune(now)]
    {
      DropOld(now);
      ops := ops + [Prune(now)];
      assert ops[..|ops| - 1] == old(ops);
    }
  }
}
