/** Where reassembled bytes come from: only payloads that their sender signed are stored or returned. */
module Provenance {
  import opened Common
  import opened Bytes
  import opened Reassembly
  import opened Delivery

  /** One of the fragments carries this payload for this place of the message, and its signature verifies. */
  ghost predicate Vouched(
    v: Verifier, fed: seq<Fragment>, peer: Bytes32, id: Bytes16, total: u16, seqNo: int, payload: Bytes)
  {
    exists f :: f in fed && Carries(f, peer, id, total, seqNo, payload) && v(peer, f.CanonicalBytes(), f.signature)
  }

  predicate Carries(f: Fragment, peer: Bytes32, id: Bytes16, total: u16, seqNo: int, payload: Bytes) {
    f.peer == peer && f.messageId == id && f.total == total && f.seqNo == seqNo && f.payload == payload
  }

  ghost predicate SlotsVouched(v: Verifier, fed: seq<Fragment>, p: Bytes32, id: Bytes16, total: u16, slots: Slots) {
    forall k :: 0 <= k < |slots| && slots[k].Some? ==> Vouched(v, fed, p, id, total, k, slots[k].value)
  }

  ghost predicate QueueVouched(v: Verifier, fed: seq<Fragment>, p: Bytes32, queue: seq<Entry>) {
    forall e :: e in queue ==> SlotsVouched(v, fed, p, e.id, e.message.total, e.message.slots)
  }

  /** Every filled slot holds the payload of a vouched fragment for that place. */
  ghost predicate AllVouched(v: Verifier, fed: seq<Fragment>, s: Buffers) {
    forall p {:trigger QueueVouched(v, fed, p, s.peers[p])} :: p in s.peers ==> QueueVouched(v, fed, p, s.peers[p])
  }

  /** A returned payload is the concatenation, in order, of one vouched payload for every place of the message. */
  ghost predicate AnswerVouched(v: Verifier, fed: seq<Fragment>, f: Fragment, r: Result<Option<Bytes>, FeedError>) {
    r.Ok? && r.value.Some? ==>
      exists pieces :: IsWhole(v, fed, f, pieces) && r.value.value == Flatten(pieces)
  }

  ghost predicate IsWhole(v: Verifier, fed: seq<Fragment>, f: Fragment, pieces: seq<Bytes>) {
    |pieces| == f.total &&
    forall k :: 0 <= k < |pieces| ==> Vouched(v, fed, f.peer, f.messageId, f.total, k, pieces[k])
  }

  lemma VouchedByMore(
    v: Verifier, fed: seq<Fragment>, more: seq<Fragment>, p: Bytes32, id: Bytes16, total: u16, k: int, payload: Bytes)
    requires Vouched(v, fed, p, id, total, k, payload)
    ensures Vouched(v, fed + more, p, id, total, k, payload)
  {
    var f :| f in fed && Carries(f, p, id, total, k, payload) && v(p, f.CanonicalBytes(), f.signature);
    assert f in fed + more;
  }

  lemma AllVouchedByMore(v: Verifier, fed: seq<Fragment>, more: seq<Fragment>, s: Buffers)
    requires AllVouched(v, fed, s)
    ensures AllVouched(v, fed + more, s)
  {
    forall p, e, k | p in s.peers && e in s.peers[p] && 0 <= k < |e.message.slots| && e.message.slots[k].Some?
      ensures Vouched(v, fed + more, p, e.id, e.message.total, k, e.message.slots[k].value)
    {
      assert QueueVouched(v, fed, p, s.peers[p]);
      assert SlotsVouched(v, fed, p, e.id, e.message.total, e.message.slots);
      VouchedByMore(v, fed, more, p, e.id, e.message.total, k, e.message.slots[k].value);
    }
    forall p | p in s.peers
      ensures QueueVouched(v, fed + more, p, s.peers[p])
    {
      forall e | e in s.peers[p]
        ensures SlotsVouched(v, fed + more, p, e.id, e.message.total, e.message.slots)
      {
      }
    }
  }

  lemma {:induction false} WithoutIsPart(queue: seq<Entry>, id: Bytes16)
    ensures forall e :: e in Without(queue, id) ==> e in queue
  {
    if queue != [] {
      WithoutIsPart(queue[1..], id);
    }
  }

  lemma {:induction false} ConcatIsFlat(slots: Slots, pieces: seq<Bytes>)
    requires |pieces| == |slots| && forall k :: 0 <= k < |slots| ==> slots[k] == Some(pieces[k])
    ensures Concat(slots) == Flatten(pieces)
  {
    if slots != [] {
      ConcatIsFlat(slots[..|slots| - 1], pieces[..|pieces| - 1]);
    }
  }

  lemma WholeSlots(v: Verifier, fed: seq<Fragment>, f: Fragment, slots: Slots)
    requires SlotsVouched(v, fed, f.peer, f.messageId, f.total, slots) && NoneMissing(slots) && |slots| == f.total
    ensures AnswerVouched(v, fed, f, Ok(Some(Concat(slots))))
  {
    var pieces := seq(|slots|, k requires 0 <= k < |slots| => slots[k].value);
    ConcatIsFlat(slots, pieces);
    assert IsWhole(v, fed, f, pieces);
  }

  /** Storing a vouched payload. */
  lemma FillIsVouched(v: Verifier, fed: seq<Fragment>, s: Buffers, f: Fragment, queue: seq<Entry>, i: nat)
    requires AllVouched(v, fed, s) && QueueVouched(v, fed, f.peer, queue)
    requires i < |queue| && queue[i].id == f.messageId && WellFormedMessage(queue[i].message)
    requires f.seqNo < f.total == queue[i].message.total
    requires f in fed && v(f.peer, f.CanonicalBytes(), f.signature)
    ensures AllVouched(v, fed, Fill(s, f, queue, i).0)
    ensures AnswerVouched(v, fed, f, Fill(s, f, queue, i).1)
  {
    var m := queue[i].message;
    assert queue[i] in queue;
    assert SlotsVouched(v, fed, f.peer, f.messageId, f.total, m.slots);
    if m.slots[f.seqNo].None? {
      var slots := m.slots[f.seqNo := Some(f.payload)];
      assert Carries(f, f.peer, f.messageId, f.total, f.seqNo, f.payload);
      assert SlotsVouched(v, fed, f.peer, f.messageId, f.total, slots);
      FillingCounts(m.slots, f.seqNo, f.payload);
      FullCount(slots);
      if m.filled + 1 == m.total {
        WithoutIsPart(queue, f.messageId);
        WholeSlots(v, fed, f, slots);
      }
      StateIsVouched(v, fed, s, f.peer, Fill(s, f, queue, i).0);
    }
  }

  /** A state that differs in one queue. */
  lemma StateIsVouched(v: Verifier, fed: seq<Fragment>, s: Buffers, p: Bytes32, s': Buffers)
    requires AllVouched(v, fed, s)
    requires p in s'.peers ==> QueueVouched(v, fed, p, s'.peers[p])
    requires forall q :: q in s'.peers && q != p ==> q in s.peers && s'.peers[q] == s.peers[q]
    ensures AllVouched(v, fed, s')
  {
    forall q | q in s'.peers
      ensures QueueVouched(v, fed, q, s'.peers[q])
    {
      assert q != p ==> QueueVouched(v, fed, q, s.peers[q]);
    }
  }

  /** Opening a message fills no slot. */
  lemma OpenIsVouched(v: Verifier, fed: seq<Fragment>, s: Buffers, f: Fragment)
    requires AllVouched(v, fed, s)
    ensures QueueVouched(v, fed, f.peer, OpenEntry(QueueOf(s, f.peer), f.messageId, f.total))
    ensures AllVouched(v, fed, Opened(s, f))
  {
    assert f.peer in s.peers ==> QueueVouched(v, fed, f.peer, s.peers[f.peer]);
    StateIsVouched(v, fed, s, f.peer, Opened(s, f));
  }

  lemma FeedIsVouched(v: Verifier, fed: seq<Fragment>, s: Buffers, f: Fragment)
    requires WellFormed(s) && AllVouched(v, fed, s) && f in fed
    ensures AllVouched(v, fed, FeedStep(v, s, f).0)
    ensures AnswerVouched(v, fed, f, FeedStep(v, s, f).1)
  {
    FeedAcceptsExactly(v, s, f);
    if FeedStep(v, s, f).1.Ok? {
      var queue := QueueOf(s, f.peer);
      assert f.peer in s.peers ==> WellFormedQueue(s.peers[f.peer]) && QueueVouched(v, fed, f.peer, s.peers[f.peer]);
      match Find(queue, f.messageId) {
        case Some(i) =>
          FillIsVouched(v, fed, s, f, queue, i);
        case None =>
          var queue' := OpenEntry(queue, f.messageId, f.total);
          OpenEntryIsWellFormed(queue, f.messageId, f.total);
          OpenIsVouched(v, fed, s, f);
          FillIsVouched(v, fed, Opened(s, f), f, queue', |queue'| - 1);
      }
    } else {
      RejectionChangesNothing(v, s, f);
    }
  }

  /** Over any run, whatever the traffic: the slots hold, and each answer is made of, payloads that were fed by then
      with a signature of their sender that verifies. */
  lemma {:induction false} RunIsVouched(v: Verifier, fed: seq<Fragment>, s: Buffers, fs: seq<Fragment>)
    requires WellFormed(s) && AllVouched(v, fed, s)
    ensures AllVouched(v, fed + fs, After(v, s, fs))
    ensures forall k :: 0 <= k < |fs| ==> AnswerVouched(v, fed + fs[..k + 1], fs[k], Answers(v, s, fs)[k])
    decreases |fs|
  {
    if fs == [] {
      assert fed + fs == fed;
    } else {
      var f, rest := fs[0], fs[1..];
      var s' := FeedStep(v, s, f).0;
      FeedKeepsWellFormed(v, s, f);
      AllVouchedByMore(v, fed, [f], s);
      FeedIsVouched(v, fed + [f], s, f);
      RunIsVouched(v, fed + [f], s', rest);
      assert fed + [f] + rest == fed + fs;
      forall k | 0 <= k < |fs|
        ensures AnswerVouched(v, fed + fs[..k + 1], fs[k], Answers(v, s, fs)[k])
      {
        if k == 0 {
          assert fs[..1] == [f];
        } else {
          assert fed + fs[..k + 1] == fed + [f] + rest[..k];
          assert Answers(v, s, fs)[k] == Answers(v, s', rest)[k - 1] && fs[k] == rest[k - 1];
        }
      }
    }
  }

  /** Nothing is stored or returned that no verified fragment carried. */
  lemma NothingIsForged(v: Verifier, fs: seq<Fragment>)
    ensures AllVouched(v, fs, After(v, NO_BUFFERS, fs))
    ensures forall k :: 0 <= k < |fs| ==> AnswerVouched(v, fs[..k + 1], fs[k], Answers(v, NO_BUFFERS, fs)[k])
  {
    RunIsVouched(v, [], NO_BUFFERS, fs);
    assert [] + fs == fs;
    forall k | 0 <= k < |fs|
      ensures AnswerVouched(v, fs[..k + 1], fs[k], Answers(v, NO_BUFFERS, fs)[k])
    {
      assert [] + fs[..k + 1] == fs[..k + 1];
    }
  }
}
