/** Reassembling signed fragments: a bounded first-in first-out queue of partial messages per peer. */
module Reassembly {
  import opened Common
  import opened Bytes
  import Domains

  const MAX_INFLIGHT_MESSAGES_PER_PEER: nat := 16
  const FRAGMENT_DOMAIN: Bytes := Domains.Prefix(Domains.TransportFragment)

  datatype FeedError =
    | InvalidSignature
    | TotalMismatch(got: u16, expected: u16)
    | SeqOutOfRange(seqNo: u16, total: u16)
    | EmptyMessage
    | PayloadMismatch(seqNo: u16)

  datatype Fragment = Fragment(
    peer: Bytes32, messageId: Bytes16, seqNo: u16, total: u16, signature: Bytes, payload: Bytes)
  {
    /** The bytes the sender signs. */
    function CanonicalBytes(): Bytes {
      FRAGMENT_DOMAIN + peer + messageId + Be2(seqNo) + Be2(total) + payload
    }
  }

  /** Ed25519 verification, taken as given: public key, message, signature. */
  type Verifier = (Bytes32, Bytes, Bytes) -> bool

  predicate Verified(v: Verifier, f: Fragment) {
    v(f.peer, f.CanonicalBytes(), f.signature)
  }

  /** A signature binds every field of the fragment: different fragments sign different bytes. */
  lemma CanonicalBytesAreInjective(f: Fragment, g: Fragment)
    requires f.CanonicalBytes() == g.CanonicalBytes()
    ensures f.(signature := g.signature) == g
  {
    var d := |FRAGMENT_DOMAIN|;
    var x, y := f.CanonicalBytes(), g.CanonicalBytes();
    assert f.peer == x[d..d + 32] == y[d..d + 32] == g.peer;
    assert f.messageId == x[d + 32..d + 48] == y[d + 32..d + 48] == g.messageId;
    assert Be2(f.seqNo) == x[d + 48..d + 50] == y[d + 48..d + 50] == Be2(g.seqNo);
    assert Be2(f.total) == x[d + 50..d + 52] == y[d + 50..d + 52] == Be2(g.total);
    assert f.payload == x[d + 52..] == y[d + 52..] == g.payload;
    BigEndianRoundTrip(f.seqNo, 2);
    BigEndianRoundTrip(g.seqNo, 2);
    BigEndianRoundTrip(f.total, 2);
    BigEndianRoundTrip(g.total, 2);
  }

  /** Which of the signed bytes says what, behind the 27 bytes of the domain. */
  lemma SignedLayout(f: Fragment)
    ensures var s := f.CanonicalBytes();
      && |s| == 79 + |f.payload| && s[..27] == FRAGMENT_DOMAIN && s[27..59] == f.peer && s[59..75] == f.messageId
      && FromBigEndian(s[75..77]) == f.seqNo && FromBigEndian(s[77..79]) == f.total && s[79..] == f.payload
  {
    var s := f.CanonicalBytes();
    FieldsInOrder(FRAGMENT_DOMAIN, f);
    assert s[75..77] == Be2(f.seqNo) && s[77..79] == Be2(f.total);
    BigEndianRoundTrip(f.seqNo, 2);
    BigEndianRoundTrip(f.total, 2);
  }

  lemma FieldsInOrder(domain: Bytes, f: Fragment)
    ensures var s, d := domain + f.peer + f.messageId + Be2(f.seqNo) + Be2(f.total) + f.payload, |domain|;
      && |s| == d + 52 + |f.payload| && s[..d] == domain && s[d..d + 32] == f.peer && s[d + 32..d + 48] == f.messageId
      && s[d + 48..d + 50] == Be2(f.seqNo) && s[d + 50..d + 52] == Be2(f.total) && s[d + 52..] == f.payload
  {
  }

  type Slots = seq<Option<Bytes>>

  datatype Pending = Pending(total: u16, slots: Slots, filled: u16)

  datatype Entry = Entry(id: Bytes16, message: Pending)

  datatype Buffers = Buffers(peers: map<Bytes32, seq<Entry>>, evicted: u64)

  const NO_BUFFERS := Buffers(map[], 0)

  function QueueOf(s: Buffers, peer: Bytes32): seq<Entry> {
    if peer in s.peers then s.peers[peer] else []
  }

  /** The filled slots of a message, counted. */
  function CountFilled(slots: Slots): (n: nat)
    ensures n <= |slots|
  {
    if slots == [] then 0
    else CountFilled(slots[..|slots| - 1]) + (if slots[|slots| - 1].Some? then 1 else 0)
  }

  /** The filled slots of a message, concatenated. */
  function Concat(slots: Slots): Bytes {
    if slots == [] then []
    else Concat(slots[..|slots| - 1]) + (if slots[|slots| - 1].Some? then slots[|slots| - 1].value else [])
  }

  /** The first entry with the given id. */
  function Find(queue: seq<Entry>, id: Bytes16): (r: Option<nat>)
    ensures r.Some? ==> r.value < |queue| && queue[r.value].id == id
    ensures r.Some? ==> forall j :: 0 <= j < r.value ==> queue[j].id != id
    ensures r.None? ==> forall j :: 0 <= j < |queue| ==> queue[j].id != id
  {
    if queue == [] then None
    else if queue[0].id == id then Some(0)
    else
      match Find(queue[1..], id)
      case None => None
      case Some(i) => Some(i + 1)
  }

  /** The entries with other ids. */
  function Without(queue: seq<Entry>, id: Bytes16): seq<Entry> {
    if queue == [] then []
    else (if queue[0].id == id then [] else [queue[0]]) + Without(queue[1..], id)
  }

  predicate WellFormedMessage(m: Pending) {
    |m.slots| == m.total && m.filled == CountFilled(m.slots) && m.filled < m.total
  }

  predicate WellFormedQueue(queue: seq<Entry>) {
    && 1 <= |queue| <= MAX_INFLIGHT_MESSAGES_PER_PEER
    && DistinctIds(queue)
    && forall i :: 0 <= i < |queue| ==> WellFormedMessage(queue[i].message)
  }

  predicate DistinctIds(queue: seq<Entry>) {
    forall i, j :: 0 <= i < j < |queue| ==> queue[i].id != queue[j].id
  }

  /** The state of every reachable reassembler. */
  ghost predicate WellFormed(s: Buffers) {
    forall p {:trigger WellFormedQueue(s.peers[p])} :: p in s.peers ==> WellFormedQueue(s.peers[p])
  }

  function FreshMessage(total: u16): Pending {
    Pending(total, seq(total, _ => None), 0)
  }

  /** The queue with room made for, and an entry opened for, a new message. */
  function OpenEntry(queue: seq<Entry>, id: Bytes16, total: u16): seq<Entry> {
    (if |queue| >= MAX_INFLIGHT_MESSAGES_PER_PEER then queue[1..] else queue) + [Entry(id, FreshMessage(total))]
  }

  /** The state with the fragment's message opened. */
  function Opened(s: Buffers, f: Fragment): Buffers {
    var queue := QueueOf(s, f.peer);
    Buffers(
      s.peers[f.peer := OpenEntry(queue, f.messageId, f.total)],
      if |queue| >= MAX_INFLIGHT_MESSAGES_PER_PEER then SatAdd(s.evicted, 1) else s.evicted)
  }

  /** Storing a payload in entry `i` of a peer's queue; the message leaves the queue when its last slot fills. */
  function Fill(s: Buffers, f: Fragment, queue: seq<Entry>, i: nat)
    : (Buffers, Result<Option<Bytes>, FeedError>)
    requires i < |queue| && f.seqNo < |queue[i].message.slots| && queue[i].message.filled < U16_MAX
  {
    var m := queue[i].message;
    if m.slots[f.seqNo].Some? then
      (s, if m.slots[f.seqNo].value != f.payload then Err(PayloadMismatch(f.seqNo)) else Ok(None))
    else
      var slots := m.slots[f.seqNo := Some(f.payload)];
      if m.filled + 1 == m.total then
        var rest := Without(queue, f.messageId);
        (s.(peers := if rest == [] then s.peers - {f.peer} else s.peers[f.peer := rest]), Ok(Some(Concat(slots))))
      else
        var queue' := queue[i := Entry(f.messageId, Pending(m.total, slots, m.filled + 1))];
        (s.(peers := s.peers[f.peer := queue']), Ok(None))
  }

  /** Whether a fragment passes the checks that look at the fragment alone. */
  predicate Admissible(v: Verifier, f: Fragment) {
    Verified(v, f) && f.total != 0 && f.seqNo < f.total
  }

  /** Whether feeding the fragment opens a message. */
  predicate Opens(v: Verifier, s: Buffers, f: Fragment) {
    Admissible(v, f) && Find(QueueOf(s, f.peer), f.messageId).None?
  }

  /** Whether feeding the fragment pushes out the peer's oldest message. */
  predicate Evicts(v: Verifier, s: Buffers, f: Fragment) {
    Opens(v, s, f) && |QueueOf(s, f.peer)| >= MAX_INFLIGHT_MESSAGES_PER_PEER
  }

  /** `Reassembler::feed`. */
  function FeedStep(v: Verifier, s: Buffers, f: Fragment): (Buffers, Result<Option<Bytes>, FeedError>)
    requires WellFormed(s)
  {
    if !Verified(v, f) then
      (s, Err(InvalidSignature))
    else if f.total == 0 then
      (s, Err(EmptyMessage))
    else if f.seqNo >= f.total then
      (s, Err(SeqOutOfRange(f.seqNo, f.total)))
    else
      var queue := QueueOf(s, f.peer);
      match Find(queue, f.messageId)
      case Some(i) =>
        assert WellFormedQueue(s.peers[f.peer]) && WellFormedMessage(queue[i].message);
        if queue[i].message.total != f.total then
          (s, Err(TotalMismatch(f.total, queue[i].message.total)))
        else
          Fill(s, f, queue, i)
      case None =>
        var queue' := OpenEntry(queue, f.messageId, f.total);
        Fill(Opened(s, f), f, queue', |queue'| - 1)
  }

  lemma {:induction false} FillingCounts(slots: Slots, k: nat, payload: Bytes)
    requires k < |slots| && slots[k].None?
    ensures CountFilled(slots[k := Some(payload)]) == CountFilled(slots) + 1
  {
    var n := |slots| - 1;
    var slots' := slots[k := Some(payload)];
    if k < n {
      FillingCounts(slots[..n], k, payload);
      assert slots'[..n] == slots[..n][k := Some(payload)];
    } else {
      assert slots'[..n] == slots[..n];
    }
  }

  /** The counter reaches the total exactly when no slot is empty. */
  lemma {:induction false} FullCount(slots: Slots)
    ensures CountFilled(slots) == |slots| <==> forall j :: 0 <= j < |slots| ==> slots[j].Some?
  {
    if slots != [] {
      var n := |slots| - 1;
      FullCount(slots[..n]);
      assert (forall j :: 0 <= j < n ==> slots[..n][j].Some?) <==> (forall j :: 0 <= j < n ==> slots[j].Some?);
    }
  }

  lemma {:induction false} EmptyCount(n: nat)
    ensures CountFilled(seq(n, _ => None)) == 0
  {
    if n > 0 {
      EmptyCount(n - 1);
      var slots: Slots := seq(n, _ => None);
      assert slots[..n - 1] == seq(n - 1, _ => None);
    }
  }

  /** In a queue with distinct ids, removing an id removes the one entry that has it. */
  lemma {:induction false} WithoutRemovesOne(queue: seq<Entry>, i: nat)
    requires DistinctIds(queue) && i < |queue|
    ensures Without(queue, queue[i].id) == queue[..i] + queue[i + 1..]
  {
    var id := queue[i].id;
    if i == 0 {
      WithoutAbsent(queue[1..], id);
      assert queue[..0] + queue[1..] == queue[1..];
    } else {
      WithoutRemovesOne(queue[1..], i - 1);
      assert queue[..i] + queue[i + 1..] == [queue[0]] + (queue[1..][..i - 1] + queue[1..][i..]);
    }
  }

  lemma {:induction false} WithoutAbsent(queue: seq<Entry>, id: Bytes16)
    requires forall j :: 0 <= j < |queue| ==> queue[j].id != id
    ensures Without(queue, id) == queue
  {
    if queue != [] {
      WithoutAbsent(queue[1..], id);
    }
  }

  /** A queue fit to receive a payload in entry `i`: like a reachable queue, except that entry `i` may be fresh. */
  lemma FillKeepsWellFormed(s: Buffers, f: Fragment, queue: seq<Entry>, i: nat)
    requires WellFormed(s) && WellFormedQueue(queue)
    requires i < |queue| && queue[i].id == f.messageId && f.seqNo < queue[i].message.total
    requires queue[i].message.slots[f.seqNo].None?
    ensures WellFormed(Fill(s, f, queue, i).0)
  {
    var m := queue[i].message;
    assert WellFormedMessage(m);
    FillingCounts(m.slots, f.seqNo, f.payload);
    var s' := Fill(s, f, queue, i).0;
    WithoutRemovesOne(queue, i);
    forall p | p in s'.peers
      ensures WellFormedQueue(s'.peers[p])
    {
      if p != f.peer {
        assert WellFormedQueue(s.peers[p]);
      }
    }
  }

  lemma OpenEntryIsWellFormed(queue: seq<Entry>, id: Bytes16, total: u16)
    requires queue == [] || WellFormedQueue(queue)
    requires Find(queue, id).None? && total > 0
    ensures WellFormedQueue(OpenEntry(queue, id, total))
  {
    EmptyCount(total);
  }

  /** Every `feed` leaves a reachable state. */
  lemma FeedKeepsWellFormed(v: Verifier, s: Buffers, f: Fragment)
    requires WellFormed(s)
    ensures WellFormed(FeedStep(v, s, f).0)
  {
    if Admissible(v, f) {
      var queue := QueueOf(s, f.peer);
      assert f.peer in s.peers ==> WellFormedQueue(s.peers[f.peer]);
      match Find(queue, f.messageId) {
        case Some(i) =>
          assert WellFormedMessage(queue[i].message);
          if queue[i].message.total == f.total && queue[i].message.slots[f.seqNo].None? {
            FillKeepsWellFormed(s, f, queue, i);
          }
        case None =>
          var queue' := OpenEntry(queue, f.messageId, f.total);
          OpenEntryIsWellFormed(queue, f.messageId, f.total);
          var s' := s.(peers := s.peers[f.peer := queue']);
          forall p | p in s'.peers
            ensures WellFormedQueue(s'.peers[p])
          {
            assert p in s.peers ==> WellFormedQueue(s.peers[p]);
          }
          FillKeepsWellFormed(s', f, queue', |queue'| - 1);
      }
    }
  }

  /** A fragment never changes another peer's queue. */
  lemma PeersAreIsolated(v: Verifier, s: Buffers, f: Fragment, p: Bytes32)
    requires WellFormed(s) && p != f.peer
    ensures QueueOf(FeedStep(v, s, f).0, p) == QueueOf(s, p)
    ensures p in FeedStep(v, s, f).0.peers <==> p in s.peers
  {
  }

  /** A rejected fragment changes nothing. */
  lemma RejectionChangesNothing(v: Verifier, s: Buffers, f: Fragment)
    requires WellFormed(s) && FeedStep(v, s, f).1.Err?
    ensures FeedStep(v, s, f).0 == s
  {
  }

  // ---- What a feed means for the messages ----

  /** The partial message a peer has under an id. */
  function Lookup(s: Buffers, peer: Bytes32, id: Bytes16): Option<Pending> {
    match Find(QueueOf(s, peer), id)
    case None => None
    case Some(i) => Some(QueueOf(s, peer)[i].message)
  }

  ghost predicate NoneMissing(slots: Slots) {
    forall j :: 0 <= j < |slots| ==> slots[j].Some?
  }

  /** The answer to an admissible fragment, given the message it belongs to, and that message afterwards. */
  ghost predicate IsAnswer(
    f: Fragment, before: Option<Pending>, r: Result<Option<Bytes>, FeedError>, after: Option<Pending>)
    requires f.seqNo < f.total && (before.Some? ==> |before.value.slots| == before.value.total)
  {
    if before.Some? && before.value.total != f.total then
      r == Err(TotalMismatch(f.total, before.value.total)) && after == before
    else
      var slots := if before.Some? then before.value.slots else seq(f.total, _ => None);
      var filled := slots[f.seqNo := Some(f.payload)];
      if slots[f.seqNo].Some? then
        r == (if slots[f.seqNo] == Some(f.payload) then Ok(None) else Err(PayloadMismatch(f.seqNo))) && after == before
      else if NoneMissing(filled) then
        r == Ok(Some(Concat(filled))) && after == None
      else
        r == Ok(None) && after.Some? && after.value.total == f.total && after.value.slots == filled
  }

  lemma FindAt(queue: seq<Entry>, id: Bytes16, i: nat)
    requires i < |queue| && queue[i].id == id && DistinctIds(queue)
    ensures Find(queue, id) == Some(i)
  {
  }

  lemma RemovedIsGone(queue: seq<Entry>, i: nat)
    requires DistinctIds(queue) && i < |queue|
    ensures Find(Without(queue, queue[i].id), queue[i].id) == None
  {
    WithoutRemovesOne(queue, i);
  }

  lemma ReplacedIsFound(queue: seq<Entry>, i: nat, m: Pending)
    requires DistinctIds(queue) && i < |queue|
    ensures Find(queue[i := Entry(queue[i].id, m)], queue[i].id) == Some(i)
  {
    FindAt(queue[i := Entry(queue[i].id, m)], queue[i].id, i);
  }

  lemma FillAnswers(s: Buffers, f: Fragment, queue: seq<Entry>, i: nat)
    requires WellFormedQueue(queue) && QueueOf(s, f.peer) == queue
    requires i < |queue| && queue[i].id == f.messageId && f.seqNo < queue[i].message.total == f.total
    ensures WellFormedMessage(queue[i].message)
    ensures var (s', r) := Fill(s, f, queue, i);
      IsAnswer(f, Some(queue[i].message), r, Lookup(s', f.peer, f.messageId))
  {
    var m := queue[i].message;
    assert WellFormedMessage(m);
    FindAt(queue, f.messageId, i);
    if m.slots[f.seqNo].None? {
      var filled := m.slots[f.seqNo := Some(f.payload)];
      FillingCounts(m.slots, f.seqNo, f.payload);
      FullCount(filled);
      if m.filled + 1 == m.total {
        RemovedIsGone(queue, i);
      } else {
        ReplacedIsFound(queue, i, Pending(m.total, filled, m.filled + 1));
      }
    }
  }

  /** A message completes exactly when no slot is missing, whatever the counter says, and is then gone; a payload that
      contradicts the total or an earlier payload is refused; a repeated one changes nothing. */
  lemma FeedAnswers(v: Verifier, s: Buffers, f: Fragment)
    requires WellFormed(s) && Admissible(v, f)
    ensures var before := Lookup(s, f.peer, f.messageId);
      && (before.Some? ==> |before.value.slots| == before.value.total)
      && IsAnswer(f, before, FeedStep(v, s, f).1, Lookup(FeedStep(v, s, f).0, f.peer, f.messageId))
  {
    var queue := QueueOf(s, f.peer);
    assert f.peer in s.peers ==> WellFormedQueue(s.peers[f.peer]);
    match Find(queue, f.messageId) {
      case Some(i) =>
        assert WellFormedMessage(queue[i].message);
        if queue[i].message.total == f.total {
          FillAnswers(s, f, queue, i);
        }
      case None =>
        var queue' := OpenEntry(queue, f.messageId, f.total);
        OpenEntryIsWellFormed(queue, f.messageId, f.total);
        FillAnswers(Opened(s, f), f, queue', |queue'| - 1);
    }
  }

  /** Which fragments are taken in, and the error that each of the others gets: the signature must verify over the
      fragment's own fields, its number must lie below its total, and neither the total nor the payload may contradict
      the message held. */
  lemma FeedAcceptsExactly(v: Verifier, s: Buffers, f: Fragment)
    requires WellFormed(s)
    ensures var r, held := FeedStep(v, s, f).1, Lookup(s, f.peer, f.messageId);
      var signed := v(f.peer, f.CanonicalBytes(), f.signature);
      && (held.Some? ==> |held.value.slots| == held.value.total)
      && (!signed ==> r == Err(InvalidSignature))
      && (signed && f.total == 0 ==> r == Err(EmptyMessage))
      && (signed && 0 < f.total <= f.seqNo ==> r == Err(SeqOutOfRange(f.seqNo, f.total)))
      && (signed && f.seqNo < f.total ==>
            if held.None? then r.Ok?
            else if held.value.total != f.total then r == Err(TotalMismatch(f.total, held.value.total))
            else if held.value.slots[f.seqNo] == None || held.value.slots[f.seqNo] == Some(f.payload) then r.Ok?
            else r == Err(PayloadMismatch(f.seqNo)))
  {
    assert f.peer in s.peers ==> WellFormedQueue(s.peers[f.peer]);
    if v(f.peer, f.CanonicalBytes(), f.signature) && f.seqNo < f.total {
      FeedAnswers(v, s, f);
    } else if Lookup(s, f.peer, f.messageId).Some? {
      assert WellFormedMessage(Lookup(s, f.peer, f.messageId).value);
    }
  }

  /** The loop that concatenates the slots of a finished message. */
  method JoinSlots(slots: Slots) returns (out: Bytes)
    ensures out == Concat(slots)
  {
    out := [];
    for k := 0 to |slots|
      invariant out == Concat(slots[..k])
    {
      assert slots[..k + 1][..k] == slots[..k];
      if slots[k].Some? {
        out := out + slots[k].value;
      }
    }
    assert slots[..|slots|] == slots;
  }

  /** The search for a pending message: its index, or the length of the queue. */
  method PositionOf(queue: seq<Entry>, id: Bytes16) returns (pos: nat)
    ensures Find(queue, id) == if pos < |queue| then Some(pos) else None
    ensures pos <= |queue|
  {
    pos := 0;
    while pos < |queue| && queue[pos].id != id
      invariant pos <= |queue|
      invariant forall j :: 0 <= j < pos ==> queue[j].id != id
    {
      pos := pos + 1;
    }
  }

  /** The reassembler with its table updated in place. */
  class Reassembler {
    const verifier: Verifier
    var peers: map<Bytes32, seq<Entry>>
    var evicted: u64

    ghost function View(): Buffers
      reads this
    {
      Buffers(peers, evicted)
    }

    ghost predicate Valid()
      reads this
    {
      WellFormed(View())
    }

    constructor (v: Verifier)
      ensures Valid() && verifier == v && View() == NO_BUFFERS
    {
      verifier := v;
      peers := map[];
      evicted := 0;
    }

    /** Storing the payload in entry `pos` of the peer's queue. */
    method FillSlot(fragment: Fragment, queue: seq<Entry>, pos: nat) returns (r: Result<Option<Bytes>, FeedError>)
      requires pos < |queue| && queue[pos].id == fragment.messageId
      requires fragment.seqNo < |queue[pos].message.slots| && queue[pos].message.filled < U16_MAX
      modifies this`peers
      ensures (View(), r) == Fill(old(View()), fragment, queue, pos)
    {
      var pending, seqNo, peer := queue[pos].message, fragment.seqNo, fragment.peer;
      if pending.slots[seqNo].Some? {
        return if pending.slots[seqNo].value != fragment.payload then Err(PayloadMismatch(seqNo)) else Ok(None);
      }
      var slots := pending.slots[seqNo := Some(fragment.payload)];
      var filled := pending.filled + 1;
      if filled == pending.total {
        var out := JoinSlots(slots);
        var rest := Without(queue, fragment.messageId);
        peers := if rest == [] then peers - {peer} else peers[peer := rest];
        return Ok(Some(out));
      }
      peers := peers[peer := queue[pos := Entry(fragment.messageId, Pending(pending.total, slots, filled))]];
      r := Ok(None);
    }

    /** Finding the fragment's message, or opening it at the end of the peer's queue after making room. */
    method LookUpOrOpen(fragment: Fragment) returns (r: Result<nat, FeedError>)
      requires fragment.total > 0
      modifies this
      ensures match Find(QueueOf(old(View()), fragment.peer), fragment.messageId)
        case Some(i) =>
          && View() == old(View())
          && var total := QueueOf(View(), fragment.peer)[i].message.total;
          && r == if total != fragment.total then Err(TotalMismatch(fragment.total, total)) else Ok(i)
        case None =>
          && View() == Opened(old(View()), fragment)
          && r == Ok(|QueueOf(View(), fragment.peer)| - 1)
    {
      var total, peer := fragment.total, fragment.peer;
      var queue := if peer in peers then peers[peer] else [];
      var pos := PositionOf(queue, fragment.messageId);
      if pos < |queue| {
        if queue[pos].message.total != total {
          return Err(TotalMismatch(total, queue[pos].message.total));
        }
        return Ok(pos);
      }
      if |queue| >= MAX_INFLIGHT_MESSAGES_PER_PEER {
        queue := queue[1..];
        evicted := SatAdd(evicted, 1);
      }
      queue := queue + [Entry(fragment.messageId, FreshMessage(total))];
      peers := peers[peer := queue];
      r := Ok(|queue| - 1);
    }

    method Feed(fragment: Fragment) returns (r: Result<Option<Bytes>, FeedError>)
      requires Valid()
      modifies this
      ensures Valid()
      ensures (View(), r) == FeedStep(verifier, old(View()), fragment)
      ensures r == Err(InvalidSignature) <==>
              !verifier(fragment.peer, fragment.CanonicalBytes(), fragment.signature)
      ensures r.Ok? ==> fragment.seqNo < fragment.total
      ensures r.Err? ==> View() == old(View())
    {
      FeedKeepsWellFormed(verifier, View(), fragment);
      if !Verified(verifier, fragment) {
        return Err(InvalidSignature);
      }
      var total, seqNo := fragment.total, fragment.seqNo;
      if total == 0 {
        return Err(EmptyMessage);
      }
      if seqNo >= total {
        return Err(SeqOutOfRange(seqNo, total));
      }
      assert fragment.peer in peers ==> WellFormedQueue(peers[fragment.peer]);
      var found := LookUpOrOpen(fragment);
      if found.Err? {
        return Err(found.error);
      }
      assert WellFormedMessage(peers[fragment.peer][found.value].message)
        || peers[fragment.peer][found.value].message == FreshMessage(total);
      r := FillSlot(fragment, peers[fragment.peer], found.value);
    }
  }
}
