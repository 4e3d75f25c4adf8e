/** Runs of the reassembler: accounting of messages, and delivery in any order. */
module Delivery {
  import opened Common
  import Sums
  import opened Bytes
  import opened Reassembly

  /** The state after feeding fragments one after the other. */
  function After(v: Verifier, s: Buffers, fs: seq<Fragment>): (r: Buffers)
    requires WellFormed(s)
    ensures WellFormed(r)
    decreases |fs|
  {
    if fs == [] then
      s
    else
      FeedKeepsWellFormed(v, s, fs[0]);
      After(v, FeedStep(v, s, fs[0]).0, fs[1..])
  }

  /** What each feed answers. */
  function Answers(v: Verifier, s: Buffers, fs: seq<Fragment>): (r: seq<Result<Option<Bytes>, FeedError>>)
    requires WellFormed(s)
    ensures |r| == |fs|
    decreases |fs|
  {
    if fs == [] then
      []
    else
      FeedKeepsWellFormed(v, s, fs[0]);
      [FeedStep(v, s, fs[0]).1] + Answers(v, FeedStep(v, s, fs[0]).0, fs[1..])
  }

  // ---- Accounting ----

  predicate Completes(v: Verifier, s: Buffers, f: Fragment)
    requires WellFormed(s)
  {
    FeedStep(v, s, f).1.Ok? && FeedStep(v, s, f).1.value.Some?
  }

  datatype Tally = Tally(begun: nat, completed: nat, evicted: nat)

  function One(b: bool): nat {
    if b then 1 else 0
  }

  /** How many messages a run opens, completes and evicts. */
  function TallyOf(v: Verifier, s: Buffers, fs: seq<Fragment>): Tally
    requires WellFormed(s)
    decreases |fs|
  {
    if fs == [] then
      Tally(0, 0, 0)
    else
      FeedKeepsWellFormed(v, s, fs[0]);
      var t := TallyOf(v, FeedStep(v, s, fs[0]).0, fs[1..]);
      Tally(t.begun + One(Opens(v, s, fs[0])),
            t.completed + One(Completes(v, s, fs[0])),
            t.evicted + One(Evicts(v, s, fs[0])))
  }

  ghost function QueueLength(s: Buffers): Bytes32 -> int {
    (p: Bytes32) => |QueueOf(s, p)|
  }

  /** The partial messages held for all peers. */
  ghost function InFlight(s: Buffers): int {
    Sums.SumOver(s.peers.Keys, QueueLength(s))
  }

  /** Storing a payload keeps the queue's length, unless the message completes and leaves. */
  lemma FillShrinks(s: Buffers, f: Fragment, queue: seq<Entry>, i: nat)
    requires WellFormedQueue(queue) && i < |queue| && queue[i].id == f.messageId
    requires f.seqNo < queue[i].message.total && QueueOf(s, f.peer) == queue
    ensures WellFormedMessage(queue[i].message)
    ensures var (s', r) := Fill(s, f, queue, i);
      |QueueOf(s', f.peer)| + One(r.Ok? && r.value.Some?) == |queue| && s'.evicted == s.evicted
  {
    assert WellFormedMessage(queue[i].message);
    WithoutRemovesOne(queue, i);
  }

  lemma QueueGrows(v: Verifier, s: Buffers, f: Fragment)
    requires WellFormed(s)
    ensures |QueueOf(FeedStep(v, s, f).0, f.peer)| + One(Completes(v, s, f)) + One(Evicts(v, s, f)) ==
            |QueueOf(s, f.peer)| + One(Opens(v, s, f))
    ensures FeedStep(v, s, f).0.evicted == if Evicts(v, s, f) then SatAdd(s.evicted, 1) else s.evicted
  {
    if Admissible(v, f) {
      var queue := QueueOf(s, f.peer);
      assert f.peer in s.peers ==> WellFormedQueue(s.peers[f.peer]);
      match Find(queue, f.messageId) {
        case Some(i) =>
          if queue[i].message.total == f.total {
            FillShrinks(s, f, queue, i);
          }
        case None =>
          var queue' := OpenEntry(queue, f.messageId, f.total);
          OpenEntryIsWellFormed(queue, f.messageId, f.total);
          FillShrinks(Opened(s, f), f, queue', |queue'| - 1);
      }
    }
  }

  lemma InFlightMoves(s: Buffers, s': Buffers, p: Bytes32)
    requires forall q :: q != p ==> QueueOf(s', q) == QueueOf(s, q) && (q in s'.peers <==> q in s.peers)
    ensures InFlight(s') - InFlight(s) == |QueueOf(s', p)| - |QueueOf(s, p)|
  {
    var others := s.peers.Keys - {p};
    assert others == s'.peers.Keys - {p};
    Sums.SumCong(others, QueueLength(s), QueueLength(s'));
    if p in s.peers {
      Sums.SumRemove(s.peers.Keys, QueueLength(s), p);
    } else {
      assert s.peers.Keys == others;
    }
    if p in s'.peers {
      Sums.SumRemove(s'.peers.Keys, QueueLength(s'), p);
    } else {
      assert s'.peers.Keys == others;
    }
  }

  lemma AccountingStep(v: Verifier, s: Buffers, f: Fragment)
    requires WellFormed(s)
    ensures InFlight(FeedStep(v, s, f).0) + One(Completes(v, s, f)) + One(Evicts(v, s, f)) ==
            InFlight(s) + One(Opens(v, s, f))
    ensures FeedStep(v, s, f).0.evicted == if Evicts(v, s, f) then SatAdd(s.evicted, 1) else s.evicted
    ensures WellFormed(FeedStep(v, s, f).0)
  {
    FeedKeepsWellFormed(v, s, f);
    var s' := FeedStep(v, s, f).0;
    forall q | q != f.peer
      ensures QueueOf(s', q) == QueueOf(s, q) && (q in s'.peers <==> q in s.peers)
    {
      PeersAreIsolated(v, s, f, q);
    }
    InFlightMoves(s, s', f.peer);
    QueueGrows(v, s, f);
  }
  /** Messages opened are in flight, completed or evicted, and the eviction counter counts the evictions until it
      saturates. */
  lemma {:induction false} MessagesAreAccountedFor(v: Verifier, s: Buffers, fs: seq<Fragment>)
    requires WellFormed(s)
    ensures var t := TallyOf(v, s, fs);
      && InFlight(s) + t.begun == InFlight(After(v, s, fs)) + t.completed + t.evicted
      && After(v, s, fs).evicted == Clamp(s.evicted + t.evicted)
    decreases |fs|
  {
    if fs != [] {
      var f, rest := fs[0], fs[1..];
      AccountingStep(v, s, f);
      var s' := FeedStep(v, s, f).0;
      MessagesAreAccountedFor(v, s', rest);
    }
  }

  // ---- First in, first out ----

  function IdsOf(queue: seq<Entry>): (ids: seq<Bytes16>)
    ensures |ids| == |queue|
  {
    seq(|queue|, i requires 0 <= i < |queue| => queue[i].id)
  }

  /** A peer's messages after one more is opened: the oldest of 16 makes room, and the new one comes last. */
  function WithOpened(ids: seq<Bytes16>, id: Bytes16): seq<Bytes16> {
    (if |ids| >= 16 then ids[1..] else ids) + [id]
  }

  lemma FillKeepsOrder(s: Buffers, f: Fragment, queue: seq<Entry>, i: nat)
    requires WellFormedQueue(queue) && i < |queue| && queue[i].id == f.messageId
    requires f.seqNo < queue[i].message.total && QueueOf(s, f.peer) == queue
    ensures WellFormedMessage(queue[i].message)
    ensures var (s', r) := Fill(s, f, queue, i);
      IdsOf(QueueOf(s', f.peer)) ==
      if r.Ok? && r.value.Some? then IdsOf(queue)[..i] + IdsOf(queue)[i + 1..] else IdsOf(queue)
  {
    assert WellFormedMessage(queue[i].message);
    WithoutRemovesOne(queue, i);
    assert IdsOf(queue[..i] + queue[i + 1..]) == IdsOf(queue)[..i] + IdsOf(queue)[i + 1..];
  }

  /** A message that completes leaves its place, and otherwise all stay. */
  ghost predicate OnlyLeaves(before: seq<Bytes16>, after: seq<Bytes16>, id: Bytes16, completes: bool) {
    if completes then exists i :: 0 <= i < |before| && before[i] == id && after == before[..i] + before[i + 1..]
    else after == before
  }

  lemma FillOnlyLeaves(s: Buffers, f: Fragment, queue: seq<Entry>, i: nat)
    requires WellFormedQueue(queue) && i < |queue| && queue[i].id == f.messageId
    requires f.seqNo < queue[i].message.total && QueueOf(s, f.peer) == queue
    ensures WellFormedMessage(queue[i].message)
    ensures var (s', r) := Fill(s, f, queue, i);
      OnlyLeaves(IdsOf(queue), IdsOf(QueueOf(s', f.peer)), f.messageId, r.Ok? && r.value.Some?)
  {
    FillKeepsOrder(s, f, queue, i);
    assert IdsOf(queue)[i] == f.messageId;
  }

  lemma OpenedIsLast(queue: seq<Entry>, f: Fragment)
    ensures IdsOf(OpenEntry(queue, f.messageId, f.total)) == WithOpened(IdsOf(queue), f.messageId)
  {
  }

  lemma FoundIsListed(queue: seq<Entry>, id: Bytes16)
    ensures Find(queue, id).Some? <==> id in IdsOf(queue)
  {
    if Find(queue, id).Some? {
      assert IdsOf(queue)[Find(queue, id).value] == id;
    }
  }

  /** Each peer's messages stay in the order in which they were opened: a message that completes leaves its place, the
      oldest of 16 makes room for another one, and nothing else moves. */
  lemma QueueOrder(v: Verifier, s: Buffers, f: Fragment)
    requires WellFormed(s) && FeedStep(v, s, f).1.Ok?
    ensures var before, after := IdsOf(QueueOf(s, f.peer)), IdsOf(QueueOf(FeedStep(v, s, f).0, f.peer));
      OnlyLeaves(if f.messageId in before then before else WithOpened(before, f.messageId), after, f.messageId,
                 FeedStep(v, s, f).1.value.Some?)
  {
    FeedAcceptsExactly(v, s, f);
    var queue := QueueOf(s, f.peer);
    assert f.peer in s.peers ==> WellFormedQueue(s.peers[f.peer]);
    FoundIsListed(queue, f.messageId);
    match Find(queue, f.messageId) {
      case Some(i) =>
        FillOnlyLeaves(s, f, queue, i);
      case None =>
        var queue' := OpenEntry(queue, f.messageId, f.total);
        OpenEntryIsWellFormed(queue, f.messageId, f.total);
        FillOnlyLeaves(Opened(s, f), f, queue', |queue'| - 1);
        OpenedIsLast(queue, f);
    }
  }

  // ---- Delivery in any order ----

  function Flatten(pieces: seq<Bytes>): Bytes {
    if pieces == [] then [] else Flatten(pieces[..|pieces| - 1]) + pieces[|pieces| - 1]
  }

  /** Joining pieces is concatenation: one piece is itself, and a cut list is the two parts one after the other. */
  lemma {:induction false} FlattenSplits(front: seq<Bytes>, back: seq<Bytes>)
    ensures Flatten(front + back) == Flatten(front) + Flatten(back)
    ensures forall piece: Bytes :: Flatten([piece]) == piece
  {
    forall piece: Bytes ensures Flatten([piece]) == piece {
      assert [piece][..0] == [];
      assert Flatten([]) == [];
    }
    if back == [] {
      assert front + back == front;
    } else {
      var init, last := back[..|back| - 1], back[|back| - 1];
      FlattenSplits(front, init);
      assert (front + back)[..|front + back| - 1] == front + init;
    }
  }

  /** A verified fragment of the message we follow. */
  predicate Own(v: Verifier, p: Bytes32, id: Bytes16, f: Fragment) {
    f.peer == p && f.messageId == id && Verified(v, f)
  }

  /** The peer signs, under this id, only pieces of the payload. */
  ghost predicate Genuine(v: Verifier, p: Bytes32, id: Bytes16, pieces: seq<Bytes>, f: Fragment) {
    Own(v, p, id, f) ==> f.total == |pieces| && f.seqNo < |pieces| && f.payload == pieces[f.seqNo]
  }

  /** The pieces delivered by a run of fragments. */
  ghost function Received(v: Verifier, p: Bytes32, id: Bytes16, fs: seq<Fragment>): set<int> {
    set f | f in fs && Own(v, p, id, f) :: f.seqNo as int
  }

  ghost predicate Whole(pieces: seq<Bytes>, got: set<int>) {
    forall j :: 0 <= j < |pieces| ==> j in got
  }

  function SlotsFor(pieces: seq<Bytes>, got: set<int>): Slots {
    seq(|pieces|, j requires 0 <= j < |pieces| => if j in got then Some(pieces[j]) else None)
  }

  /** A queue holds the message with exactly the pieces `got`, and at most `behind` entries come after it. */
  ghost predicate QueueHolds(queue: seq<Entry>, id: Bytes16, pieces: seq<Bytes>, got: set<int>, behind: int) {
    && Find(queue, id).Some?
    && (var i := Find(queue, id).value;
        && queue[i].message.total == |pieces|
        && queue[i].message.slots == SlotsFor(pieces, got)
        && |queue| - 1 - i <= behind)
  }

  ghost predicate Holds(s: Buffers, p: Bytes32, id: Bytes16, pieces: seq<Bytes>, got: set<int>, behind: int) {
    0 < |pieces| <= U16_MAX && p in s.peers && QueueHolds(s.peers[p], id, pieces, got, behind)
  }

  /** All slots filled means all pieces, in `seq` order. */
  lemma {:induction false} WholeIsFlat(pieces: seq<Bytes>, got: set<int>)
    requires Whole(pieces, got)
    ensures Concat(SlotsFor(pieces, got)) == Flatten(pieces)
    ensures CountFilled(SlotsFor(pieces, got)) == |pieces|
  {
    if pieces != [] {
      var n := |pieces| - 1;
      WholeIsFlat(pieces[..n], got);
      assert SlotsFor(pieces, got)[..n] == SlotsFor(pieces[..n], got);
    }
  }

  lemma NotWholeIsNotFull(pieces: seq<Bytes>, got: set<int>)
    requires !Whole(pieces, got)
    ensures CountFilled(SlotsFor(pieces, got)) < |pieces|
  {
    FullCount(SlotsFor(pieces, got));
    var j :| 0 <= j < |pieces| && j !in got;
    assert SlotsFor(pieces, got)[j].None?;
  }

  lemma StillHeld(queue: seq<Entry>, i: nat, id: Bytes16, m: Pending, pieces: seq<Bytes>, got: set<int>)
    requires DistinctIds(queue) && i < |queue| && queue[i].id == id
    requires m.total == |pieces| && m.slots == SlotsFor(pieces, got)
    ensures QueueHolds(queue[i := Entry(id, m)], id, pieces, got, |queue| - 1 - i)
  {
    FindAt(queue[i := Entry(id, m)], id, i);
  }

  /** Feeding one of our pieces into a queue that holds the message at index `i`. */
  lemma FillOwn(s: Buffers, f: Fragment, queue: seq<Entry>, i: nat, pieces: seq<Bytes>, got: set<int>)
    requires WellFormedQueue(queue) && i < |queue| && queue[i].id == f.messageId
    requires 0 < |pieces| <= U16_MAX && queue[i].message.total == |pieces|
    requires queue[i].message.slots == SlotsFor(pieces, got)
    requires f.seqNo < |pieces| && f.payload == pieces[f.seqNo]
    ensures var (s', r) := Fill(s, f, queue, i);
      var got' := got + {f.seqNo as int};
      if f.seqNo in got then s' == s && r == Ok(None)
      else if Whole(pieces, got') then r == Ok(Some(Flatten(pieces)))
      else r == Ok(None) && Holds(s', f.peer, f.messageId, pieces, got', |queue| - 1 - i)
  {
    var m := queue[i].message;
    var got' := got + {f.seqNo as int};
    assert WellFormedMessage(m);
    if f.seqNo !in got {
      FillingCounts(m.slots, f.seqNo, f.payload);
      assert m.slots[f.seqNo := Some(f.payload)] == SlotsFor(pieces, got');
      if Whole(pieces, got') {
        WholeIsFlat(pieces, got');
      } else {
        NotWholeIsNotFull(pieces, got');
        StillHeld(queue, i, f.messageId, Pending(m.total, SlotsFor(pieces, got'), m.filled + 1), pieces, got');
      }
    }
  }

  /** One of our pieces arrives while the message is pending. */
  lemma OwnStep(
    v: Verifier, s: Buffers, f: Fragment, p: Bytes32, id: Bytes16, pieces: seq<Bytes>, got: set<int>, behind: int)
    requires WellFormed(s) && Holds(s, p, id, pieces, got, behind)
    requires Own(v, p, id, f) && Genuine(v, p, id, pieces, f) && !Whole(pieces, got)
    ensures var (s', r) := FeedStep(v, s, f);
      var got' := got + {f.seqNo as int};
      if Whole(pieces, got') then r == Ok(Some(Flatten(pieces)))
      else r == Ok(None) && Holds(s', p, id, pieces, got', behind)
  {
    assert WellFormedQueue(s.peers[p]);
    FillOwn(s, f, s.peers[p], Find(s.peers[p], id).value, pieces, got);
    if f.seqNo in got {
      assert got + {f.seqNo as int} == got;
    }
  }

  /** Another message of the peer completes and leaves: ours stays where it is, or moves one place forward. */
  lemma OtherLeaves(queue: seq<Entry>, k: nat, id: Bytes16, i: nat, pieces: seq<Bytes>, got: set<int>)
    requires DistinctIds(queue) && k < |queue| && i < |queue| && queue[k].id != queue[i].id == id
    requires queue[i].message.total == |pieces| && queue[i].message.slots == SlotsFor(pieces, got)
    ensures QueueHolds(Without(queue, queue[k].id), id, pieces, got, |queue| - 1 - i)
  {
    WithoutRemovesOne(queue, k);
    LeavesAt(queue, queue[..k] + queue[k + 1..], k, id, i);
  }

  lemma LeavesAt(queue: seq<Entry>, rest: seq<Entry>, k: nat, id: Bytes16, i: nat)
    requires DistinctIds(queue) && k < |queue| && i < |queue| && queue[k].id != queue[i].id == id
    requires rest == queue[..k] + queue[k + 1..]
    ensures var i' := if k < i then i - 1 else i;
      Find(rest, id) == Some(i') && rest[i'] == queue[i] && |rest| - 1 - i' <= |queue| - 1 - i
  {
    var i' := if k < i then i - 1 else i;
    assert rest[i'] == queue[i];
    forall j | 0 <= j < i'
      ensures rest[j].id != id
    {
      var j' := if j < k then j else j + 1;
      assert rest[j] == queue[j'] && j' < i;
    }
  }

  /** Another message of the peer takes a piece. */
  lemma OtherChanges(queue: seq<Entry>, k: nat, m: Pending, id: Bytes16, i: nat, pieces: seq<Bytes>, got: set<int>)
    requires DistinctIds(queue) && k < |queue| && i < |queue| && queue[k].id != queue[i].id == id
    requires queue[i].message.total == |pieces| && queue[i].message.slots == SlotsFor(pieces, got)
    ensures QueueHolds(queue[k := Entry(queue[k].id, m)], id, pieces, got, |queue| - 1 - i)
  {
    var queue' := queue[k := Entry(queue[k].id, m)];
    assert DistinctIds(queue');
    FindAt(queue', id, i);
  }

  lemma FillOther(
    s: Buffers, f: Fragment, queue: seq<Entry>, k: nat, id: Bytes16, i: nat, pieces: seq<Bytes>, got: set<int>)
    requires WellFormedQueue(queue) && k < |queue| && i < |queue|
    requires queue[k].id == f.messageId != queue[i].id == id && f.seqNo < queue[k].message.total
    requires 0 < |pieces| <= U16_MAX && queue[i].message.total == |pieces|
    requires queue[i].message.slots == SlotsFor(pieces, got)
    requires f.peer in s.peers && s.peers[f.peer] == queue
    ensures Holds(Fill(s, f, queue, k).0, f.peer, id, pieces, got, |queue| - 1 - i)
  {
    var m := queue[k].message;
    assert WellFormedMessage(m);
    if m.slots[f.seqNo].Some? {
      FindAt(queue, id, i);
    } else if m.filled + 1 == m.total {
      OtherLeaves(queue, k, id, i, pieces, got);
    } else {
      OtherChanges(queue, k, Pending(m.total, m.slots[f.seqNo := Some(f.payload)], m.filled + 1), id, i, pieces, got);
    }
  }

  /** Any other fragment arrives: the message keeps its pieces, and falls back by at most one place per opening. */
  lemma OtherStep(
    v: Verifier, s: Buffers, f: Fragment, p: Bytes32, id: Bytes16, pieces: seq<Bytes>, got: set<int>, behind: nat)
    requires WellFormed(s) && Holds(s, p, id, pieces, got, behind) && !Own(v, p, id, f)
    requires behind + One(f.peer == p && Opens(v, s, f)) <= MAX_INFLIGHT_MESSAGES_PER_PEER - 1
    ensures Holds(FeedStep(v, s, f).0, p, id, pieces, got, behind + One(f.peer == p && Opens(v, s, f)))
  {
    if f.peer != p {
      PeersAreIsolated(v, s, f, p);
    } else if Admissible(v, f) {
      var queue := s.peers[p];
      assert WellFormedQueue(queue);
      var i := Find(queue, id).value;
      match Find(queue, f.messageId) {
        case Some(k) =>
          assert WellFormedMessage(queue[k].message);
          if queue[k].message.total == f.total {
            FillOther(s, f, queue, k, id, i, pieces, got);
          }
        case None =>
          var queue' := OpenEntry(queue, f.messageId, f.total);
          OpenEntryIsWellFormed(queue, f.messageId, f.total);
          var i' := if |queue| >= MAX_INFLIGHT_MESSAGES_PER_PEER then i - 1 else i;
          FillOther(Opened(s, f), f, queue', |queue'| - 1, id, i', pieces, got);
      }
    }
  }

  /** How many messages the same peer opens during a run. */
  function OpeningsBy(v: Verifier, s: Buffers, fs: seq<Fragment>, p: Bytes32): nat
    requires WellFormed(s)
    decreases |fs|
  {
    if fs == [] then
      0
    else
      FeedKeepsWellFormed(v, s, fs[0]);
      One(fs[0].peer == p && Opens(v, s, fs[0])) + OpeningsBy(v, FeedStep(v, s, fs[0]).0, fs[1..], p)
  }
  /** The answer a fragment of ours must get depending on whether it completes the message. */
  function RightAnswer(pieces: seq<Bytes>, whole: bool): Result<Option<Bytes>, FeedError> {
    Ok(if whole then Some(Flatten(pieces)) else None)
  }

  /** What the feeds of our fragments answer, when the message already holds the pieces `got`. */
  ghost predicate AnswersAreRight(
    v: Verifier, s: Buffers, p: Bytes32, id: Bytes16, pieces: seq<Bytes>, fs: seq<Fragment>, got: set<int>)
    requires WellFormed(s)
  {
    forall k {:trigger Answers(v, s, fs)[k]} :: 0 <= k < |fs| && Own(v, p, id, fs[k]) ==>
      Answers(v, s, fs)[k] == RightAnswer(pieces, Whole(pieces, got + Received(v, p, id, fs[..k + 1])))
  }

  /** One feed while the message is pending. */
  lemma PendingStep(
    v: Verifier, s: Buffers, f: Fragment, p: Bytes32, id: Bytes16, pieces: seq<Bytes>, got: set<int>, behind: nat)
    requires WellFormed(s) && Holds(s, p, id, pieces, got, behind) && !Whole(pieces, got)
    requires Genuine(v, p, id, pieces, f)
    requires behind + One(f.peer == p && Opens(v, s, f)) <= MAX_INFLIGHT_MESSAGES_PER_PEER - 1
    ensures var got' := got + Received(v, p, id, [f]);
      && (Own(v, p, id, f) ==> FeedStep(v, s, f).1 == RightAnswer(pieces, Whole(pieces, got')))
      && (!Whole(pieces, got') ==>
            Holds(FeedStep(v, s, f).0, p, id, pieces, got', behind + One(f.peer == p && Opens(v, s, f))))
  {
    assert [f] + [] == [f];
    if Own(v, p, id, f) {
      OwnStep(v, s, f, p, id, pieces, got, behind);
      assert got + Received(v, p, id, [f]) == got + {f.seqNo as int};
    } else {
      OtherStep(v, s, f, p, id, pieces, got, behind);
      assert got + Received(v, p, id, [f]) == got;
    }
  }

  /** Right answers to the first fragment and to the rest are right answers to the whole run. */
  lemma AnswersCompose(
    v: Verifier, s: Buffers, p: Bytes32, id: Bytes16, pieces: seq<Bytes>, fs: seq<Fragment>, got: set<int>)
    requires WellFormed(s) && fs != [] && WellFormed(FeedStep(v, s, fs[0]).0)
    requires Own(v, p, id, fs[0]) ==>
      FeedStep(v, s, fs[0]).1 == RightAnswer(pieces, Whole(pieces, got + Received(v, p, id, [fs[0]])))
    requires AnswersAreRight(v, FeedStep(v, s, fs[0]).0, p, id, pieces, fs[1..], got + Received(v, p, id, [fs[0]]))
    ensures AnswersAreRight(v, s, p, id, pieces, fs, got)
  {
    var s', rest := FeedStep(v, s, fs[0]).0, fs[1..];
    forall k | 0 <= k < |fs| && Own(v, p, id, fs[k])
      ensures Answers(v, s, fs)[k] == RightAnswer(pieces, Whole(pieces, got + Received(v, p, id, fs[..k + 1])))
    {
      if k == 0 {
        assert fs[..1] == [fs[0]];
      } else {
        assert Answers(v, s, fs)[k] == Answers(v, s', rest)[k - 1];
        assert fs[..k + 1] == [fs[0]] + rest[..k];
        assert got + Received(v, p, id, fs[..k + 1]) ==
               got + Received(v, p, id, [fs[0]]) + Received(v, p, id, rest[..k]);
      }
    }
  }

  lemma {:induction false} PendingIsDelivered(
    v: Verifier, s: Buffers, p: Bytes32, id: Bytes16, pieces: seq<Bytes>, fs: seq<Fragment>, got: set<int>, behind: nat)
    requires WellFormed(s) && Holds(s, p, id, pieces, got, behind)
    requires forall f :: f in fs ==> Genuine(v, p, id, pieces, f)
    requires behind + OpeningsBy(v, s, fs, p) <= MAX_INFLIGHT_MESSAGES_PER_PEER - 1
    requires fs != [] ==> !Whole(pieces, got + Received(v, p, id, fs[..|fs| - 1]))
    ensures AnswersAreRight(v, s, p, id, pieces, fs, got)
    decreases |fs|
  {
    if fs != [] {
      var f, rest := fs[0], fs[1..];
      var got' := got + Received(v, p, id, [f]);
      FeedKeepsWellFormed(v, s, f);
      assert !Whole(pieces, got);
      PendingStep(v, s, f, p, id, pieces, got, behind);
      if rest != [] {
        assert fs[..|fs| - 1] == [f] + rest[..|rest| - 1];
        assert got + Received(v, p, id, fs[..|fs| - 1]) == got' + Received(v, p, id, rest[..|rest| - 1]);
        assert !Whole(pieces, got');
        PendingIsDelivered(
          v, FeedStep(v, s, f).0, p, id, pieces, rest, got', behind + One(f.peer == p && Opens(v, s, f)));
      }
      AnswersCompose(v, s, p, id, pieces, fs, got);
    }
  }

  /** The first piece opens the message. */
  lemma FirstStep(v: Verifier, s: Buffers, p: Bytes32, id: Bytes16, pieces: seq<Bytes>, first: Fragment)
    requires WellFormed(s) && Find(QueueOf(s, p), id).None? && 0 < |pieces| <= U16_MAX
    requires Own(v, p, id, first) && Genuine(v, p, id, pieces, first)
    ensures var got := {first.seqNo as int};
      && FeedStep(v, s, first).1 == RightAnswer(pieces, Whole(pieces, got))
      && (!Whole(pieces, got) ==> Holds(FeedStep(v, s, first).0, p, id, pieces, got, 0))
  {
    var queue := QueueOf(s, p);
    var queue' := OpenEntry(queue, id, first.total);
    assert p in s.peers ==> WellFormedQueue(s.peers[p]);
    OpenEntryIsWellFormed(queue, id, first.total);
    assert SlotsFor(pieces, {}) == seq(|pieces|, _ => None);
    FillOwn(Opened(s, first), first, queue', |queue'| - 1, pieces, {});
    assert {} + {first.seqNo as int} == {first.seqNo as int};
  }

  /** How many messages the peer opens after the first fragment. */
  function LaterOpenings(v: Verifier, s: Buffers, first: Fragment, fs: seq<Fragment>, p: Bytes32): nat
    requires WellFormed(s)
  {
    FeedKeepsWellFormed(v, s, first);
    OpeningsBy(v, FeedStep(v, s, first).0, fs, p)
  }

  /** Order-insensitive delivery. A peer signs a payload cut into pieces, under an id that is not pending. From the
      first piece on, whatever the order and repetition of the pieces and whatever other traffic is mixed in, as long
      as the peer opens at most 15 other messages, every feed of a piece answers None until the last missing piece,
      which answers the pieces concatenated in order. */
  lemma DeliveryInAnyOrder(
    v: Verifier, s: Buffers, p: Bytes32, id: Bytes16, pieces: seq<Bytes>, first: Fragment, fs: seq<Fragment>)
    requires WellFormed(s) && Find(QueueOf(s, p), id).None? && 0 < |pieces| <= U16_MAX
    requires Own(v, p, id, first) && forall f :: f in [first] + fs ==> Genuine(v, p, id, pieces, f)
    requires LaterOpenings(v, s, first, fs, p) <= MAX_INFLIGHT_MESSAGES_PER_PEER - 1
    requires fs != [] ==> !Whole(pieces, Received(v, p, id, [first] + fs[..|fs| - 1]))
    ensures AnswersAreRight(v, s, p, id, pieces, [first] + fs, {})
  {
    var all := [first] + fs;
    var s' := FeedStep(v, s, first).0;
    var got := {first.seqNo as int};
    FeedKeepsWellFormed(v, s, first);
    FirstStep(v, s, p, id, pieces, first);
    assert [first] + [] == [first] && {} + Received(v, p, id, [first]) == got;
    if fs != [] {
      assert Received(v, p, id, [first] + fs[..|fs| - 1]) == got + Received(v, p, id, fs[..|fs| - 1]);
      PendingIsDelivered(v, s', p, id, pieces, fs, got, 0);
    }
    assert all[0] == first && all[1..] == fs;
    AnswersCompose(v, s, p, id, pieces, all, {});
  }
}
