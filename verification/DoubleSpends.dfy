/** Which double spends a gossip node with a bounded registry catches. */
module DoubleSpends {
  import opened Common
  import opened Bytes
  import opened Blocks
  import opened Validation
  import opened NonceRegistry
  import opened GossipNode

  /** What a node answers to the block added as input `i` of a run. */
  ghost function AnswerTo(c: Crypto, capacity: nat, inputs: seq<Input>, i: nat): Result<(), Error>
    requires i < |inputs| && inputs[i].Add?
  {
    Admission(c, After(c, capacity, inputs[..i]).registry, inputs[i].block).0
  }

  /** How many insertions a run makes. */
  ghost function Count(c: Crypto, capacity: nat, inputs: seq<Input>): nat {
    |AllInsertions(c, capacity, inputs)|
  }

  /** An earlier part of a run has made the first of its insertions. */
  lemma {:induction false} InsertionsExtend(c: Crypto, capacity: nat, inputs: seq<Input>, i: nat)
    requires i <= |inputs|
    ensures AllInsertions(c, capacity, inputs[..i]) <= AllInsertions(c, capacity, inputs)
  {
    if i == |inputs| {
      assert inputs[..i] == inputs;
    } else {
      var init := inputs[..|inputs| - 1];
      InsertionsExtend(c, capacity, init, i);
      assert init[..i] == inputs[..i];
    }
  }

  lemma {:induction false} TableHolds(events: seq<Event>, e: Event)
    requires DistinctKeys(events) && e in events
    ensures e.key in TableOf(events) && TableOf(events)[e.key] == e.hash
  {
    var init, last := events[..|events| - 1], events[|events| - 1];
    assert events == init + [last];
    if e in init {
      TableHolds(init, e);
    }
  }

  lemma {:induction false} TableComesFromEvents(events: seq<Event>, k: NonceKey)
    requires k in TableOf(events)
    ensures Event(k, TableOf(events)[k]) in events
  {
    var init, last := events[..|events| - 1], events[|events| - 1];
    if k != last.key {
      TableComesFromEvents(init, k);
    }
  }

  /** After any run, the registry holds exactly the last insertions. */
  lemma RegisteredIsRecent(c: Crypto, capacity: nat, inputs: seq<Input>, e: Event)
    requires capacity >= 1
    ensures var registry := After(c, capacity, inputs).registry;
      e.key in registry && registry[e.key] == e.hash <==> e in Window(AllInsertions(c, capacity, inputs), capacity)
  {
    EveryRunKeepsTheWindow(c, capacity, inputs);
    var window := Window(AllInsertions(c, capacity, inputs), capacity);
    if e in window {
      TableHolds(window, e);
    }
    if e.key in TableOf(window) {
      TableComesFromEvents(window, e.key);
    }
  }

  /** While the window still holds the insertion of an account and nonce, a genuine block for them is taken when it
      has the inserted hash and reported as a double spend when it has another one. */
  lemma RememberedHashDecides(
    c: Crypto, capacity: nat, inputs: seq<Input>, j: nat, key: NonceKey, hash: Bytes32, hash': Bytes32)
    requires capacity >= 1 && j < |inputs| && inputs[j].Add?
    requires Event(key, hash) in Window(AllInsertions(c, capacity, inputs[..j]), capacity)
    requires Genuine(c, inputs[j].block) && Names(inputs[j].block, key, hash')
    ensures AnswerTo(c, capacity, inputs, j) ==
            if hash' == hash then Ok(()) else Err(DoubleSpend(inputs[j].block.nonce))
  {
    RegisteredIsRecent(c, capacity, inputs[..j], Event(key, hash));
    AdmissionMeans(c, After(c, capacity, inputs[..j]).registry, inputs[j].block);
    EventIsNamed(inputs[j].block);
  }

  /** A genuine block is reported as a double spend exactly when the window holds another hash for its account and
      nonce, and is taken otherwise. */
  lemma CaughtExactly(c: Crypto, capacity: nat, inputs: seq<Input>, j: nat, key: NonceKey, hash: Bytes32)
    requires capacity >= 1 && j < |inputs| && inputs[j].Add?
    requires Genuine(c, inputs[j].block) && Names(inputs[j].block, key, hash)
    ensures AnswerTo(c, capacity, inputs, j) ==
            if ShowsAnother(Window(AllInsertions(c, capacity, inputs[..j]), capacity), key, hash)
            then Err(DoubleSpend(inputs[j].block.nonce)) else Ok(())
  {
    var registry := After(c, capacity, inputs[..j]).registry;
    AdmissionMeans(c, registry, inputs[j].block);
    EventIsNamed(inputs[j].block);
    if key in registry {
      RegisteredIsRecent(c, capacity, inputs[..j], Event(key, registry[key]));
    }
    forall h: Bytes32 | Event(key, h) in Window(AllInsertions(c, capacity, inputs[..j]), capacity)
      ensures key in registry && registry[key] == h
    {
      RegisteredIsRecent(c, capacity, inputs[..j], Event(key, h));
    }
  }

  ghost predicate ShowsAnother(window: seq<Event>, key: NonceKey, hash: Bytes32) {
    exists e :: e in window && e.key == key && e.hash != hash
  }

  /** Two blocks taken for one account and nonce have one hash, as long as the window holds the insertion. */
  lemma TakenBlocksAgree(
    c: Crypto, capacity: nat, inputs: seq<Input>, j: nat, key: NonceKey, hash: Bytes32, hash': Bytes32)
    requires capacity >= 1 && j < |inputs| && inputs[j].Add?
    requires Event(key, hash) in Window(AllInsertions(c, capacity, inputs[..j]), capacity)
    requires Names(inputs[j].block, key, hash') && AnswerTo(c, capacity, inputs, j).Ok?
    ensures hash' == hash
  {
    AdmissionMeans(c, After(c, capacity, inputs[..j]).registry, inputs[j].block);
    RememberedHashDecides(c, capacity, inputs, j, key, hash, hash');
  }

  /** The next input's insertions follow those made so far. */
  lemma InsertedNext(c: Crypto, capacity: nat, inputs: seq<Input>, i: nat)
    requires i < |inputs|
    ensures AllInsertions(c, capacity, inputs[..i + 1]) ==
            AllInsertions(c, capacity, inputs[..i]) + InsertionsOf(c, After(c, capacity, inputs[..i]), inputs[i])
  {
    assert inputs[..i + 1][..i] == inputs[..i];
  }

  /** A newly registered block stays registered over `capacity` insertions, its own included. */
  lemma NewEntryStays(c: Crypto, capacity: nat, inputs: seq<Input>, i: nat, j: nat, key: NonceKey, hash: Bytes32)
    requires capacity >= 1 && i < j <= |inputs| && inputs[i].Add?
    requires Genuine(c, inputs[i].block) && Names(inputs[i].block, key, hash)
    requires key !in After(c, capacity, inputs[..i]).registry
    requires Count(c, capacity, inputs[..j]) - Count(c, capacity, inputs[..i]) <= capacity
    ensures Event(key, hash) in Window(AllInsertions(c, capacity, inputs[..j]), capacity)
  {
    NewEntryAt(c, capacity, inputs, i, j, key, hash);
    LateElementsShow(AllInsertions(c, capacity, inputs[..j]), Count(c, capacity, inputs[..i]), capacity);
  }

  lemma LateElementsShow(events: seq<Event>, n: nat, capacity: nat)
    requires n < |events| && |events| - n <= capacity
    ensures events[n] in Window(events, capacity)
  {
    if |events| > capacity {
      assert Window(events, capacity)[n - (|events| - capacity)] == events[n];
    }
  }

  lemma NewEntryAt(c: Crypto, capacity: nat, inputs: seq<Input>, i: nat, j: nat, key: NonceKey, hash: Bytes32)
    requires capacity >= 1 && i < j <= |inputs| && inputs[i].Add?
    requires Genuine(c, inputs[i].block) && Names(inputs[i].block, key, hash)
    requires key !in After(c, capacity, inputs[..i]).registry
    ensures var n := Count(c, capacity, inputs[..i]);
      n < Count(c, capacity, inputs[..j]) && AllInsertions(c, capacity, inputs[..j])[n] == Event(key, hash)
  {
    AdmissionMeans(c, After(c, capacity, inputs[..i]).registry, inputs[i].block);
    InsertedNext(c, capacity, inputs, i);
    InsertionsExtend(c, capacity, inputs[..j], i + 1);
    assert inputs[..j][..i + 1] == inputs[..i + 1];
  }

  /** A double spend is caught whenever at most `capacity` insertions were made since, and including, the first block's:
      whatever else the node was given in between. */
  lemma DoubleSpendIsCaught(
    c: Crypto, capacity: nat, inputs: seq<Input>, i: nat, j: nat, key: NonceKey, hash: Bytes32, hash': Bytes32)
    requires capacity >= 1 && i < j < |inputs| && inputs[i].Add? && inputs[j].Add?
    requires Genuine(c, inputs[i].block) && Names(inputs[i].block, key, hash)
    requires Genuine(c, inputs[j].block) && Names(inputs[j].block, key, hash') && hash' != hash
    requires key !in After(c, capacity, inputs[..i]).registry
    requires Count(c, capacity, inputs[..j]) - Count(c, capacity, inputs[..i]) <= capacity
    ensures AnswerTo(c, capacity, inputs, i) == Ok(())
    ensures AnswerTo(c, capacity, inputs, j) == Err(DoubleSpend(inputs[j].block.nonce))
  {
    NewEntryStays(c, capacity, inputs, i, j, key, hash);
    RememberedHashDecides(c, capacity, inputs, j, key, hash, hash');
    AdmissionMeans(c, After(c, capacity, inputs[..i]).registry, inputs[i].block);
  }
}
