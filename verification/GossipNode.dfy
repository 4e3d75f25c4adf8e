/** A gossip node's bounded state: the nonce registry and the known blocks, both first-in first-out. */
module GossipNode {
  import opened Common
  import opened Bytes
  import Hex
  import opened Blocks
  import Validation
  import opened NonceRegistry
  import Ordering

  /** One insertion into the nonce registry. */
  datatype Event = Event(key: NonceKey, hash: Bytes32)

  /** The last `capacity` elements of a history. */
  function Window<T>(history: seq<T>, capacity: nat): (w: seq<T>)
    ensures |w| == Min(|history|, capacity)
  {
    if |history| <= capacity then history else history[|history| - capacity..]
  }

  /** How many elements of a history fell out of the window, as a saturating counter shows it. */
  function DroppedCount<T>(history: seq<T>, capacity: nat): u64 {
    Clamp(|history| - Min(|history|, capacity))
  }

  /** Sliding the window over one more element. */
  lemma WindowSlides<T>(history: seq<T>, x: T, capacity: nat)
    requires capacity >= 1
    ensures var w := Window(history, capacity);
      Window(history + [x], capacity) == (if |w| >= capacity then w[1..] else w) + [x]
  {
  }

  /** Dropping from the front of a window with more elements appended gives the next window. */
  lemma WindowAfterAppend<T>(history: seq<T>, more: seq<T>, capacity: nat)
    requires capacity >= 1
    ensures Window(history + more, capacity) == Window(Window(history, capacity) + more, capacity)
  {
  }

  function KeysOf(events: seq<Event>): (r: seq<NonceKey>)
    ensures |r| == |events|
  {
    seq(|events|, i requires 0 <= i < |events| => events[i].key)
  }

  /** The registry that a list of insertions builds. */
  function TableOf(events: seq<Event>): Registry {
    if events == [] then map[]
    else TableOf(events[..|events| - 1])[events[|events| - 1].key := events[|events| - 1].hash]
  }

  /** Every insertion is of a key that is new at the time. */
  predicate DistinctKeys(events: seq<Event>) {
    events == [] ||
    (DistinctKeys(events[..|events| - 1]) && events[|events| - 1].key !in TableOf(events[..|events| - 1]))
  }

  /** The registry loses exactly the first entry with its head, and is as large as the list. */
  lemma {:induction false} HeadOfTable(events: seq<Event>)
    requires DistinctKeys(events)
    ensures |TableOf(events)| == |events|
    ensures events != [] ==>
      && events[0].key in TableOf(events)
      && DistinctKeys(events[1..])
      && TableOf(events[1..]) == TableOf(events) - {events[0].key}
  {
    if events != [] {
      var n := |events| - 1;
      var init, last := events[..n], events[n];
      HeadOfTable(init);
      assert TableOf(events).Keys == TableOf(init).Keys + {last.key};
      if n > 0 {
        assert events[1..][..n - 1] == init[1..];
      } else {
        assert init == [];
      }
    }
  }

  lemma AppendedTable(events: seq<Event>, e: Event)
    ensures TableOf(events + [e]) == TableOf(events)[e.key := e.hash]
    ensures KeysOf(events + [e]) == KeysOf(events) + [e.key]
    ensures DistinctKeys(events) && e.key !in TableOf(events) ==> DistinctKeys(events + [e])
  {
    assert (events + [e])[..|events|] == events;
  }

  // ---- The registry with its order tracker ----

  datatype Tracked = Tracked(registry: Registry, order: seq<NonceKey>, dropped: u64)

  /** A registry and its tracker reflect a list of insertions. */
  ghost predicate Reflects(window: seq<Event>, registry: Registry, order: seq<NonceKey>) {
    DistinctKeys(window) && registry == TableOf(window) && order == KeysOf(window)
  }

  /** The registry is exactly the last insertions that fit, the tracker their keys in insertion order, and the drop
      counter says how many did not fit. */
  ghost predicate IsWindow(events: seq<Event>, capacity: nat, s: Tracked) {
    && Reflects(Window(events, capacity), s.registry, s.order)
    && s.dropped == DroppedCount(events, capacity)
  }

  /** Popping the order tracker: keys no longer in the registry are skipped. */
  function Evict(registry: Registry, order: seq<NonceKey>): (Registry, seq<NonceKey>, bool) {
    if order == [] then (registry, order, false)
    else if order[0] in registry then (registry - {order[0]}, order[1..], true)
    else Evict(registry, order[1..])
  }

  function Evicted(s: Tracked): Tracked {
    var (registry, order, evicted) := Evict(s.registry, s.order);
    Tracked(registry, order, if evicted then SatAdd(s.dropped, 1) else s.dropped)
  }

  function Inserted(s: Tracked, capacity: nat, e: Event): Tracked {
    var room := if |s.registry| >= capacity then Evicted(s) else s;
    Tracked(room.registry[e.key := e.hash], room.order + [e.key], room.dropped)
  }

  /** Evicting takes out the oldest insertion. */
  lemma EvictTakesOldest(window: seq<Event>, s: Tracked)
    requires Reflects(window, s.registry, s.order) && window != []
    ensures Reflects(window[1..], Evicted(s).registry, Evicted(s).order)
    ensures Evicted(s).dropped == SatAdd(s.dropped, 1)
  {
    HeadOfTable(window);
    assert s.order[0] == window[0].key;
    assert KeysOf(window)[1..] == KeysOf(window[1..]);
  }

  lemma AppendReflects(window: seq<Event>, registry: Registry, order: seq<NonceKey>, e: Event)
    requires Reflects(window, registry, order) && e.key !in registry
    ensures Reflects(window + [e], registry[e.key := e.hash], order + [e.key])
  {
    AppendedTable(window, e);
  }

  /** One insertion slides the window. */
  lemma InsertionSlidesWindow(events: seq<Event>, capacity: nat, s: Tracked, e: Event)
    requires capacity >= 1 && IsWindow(events, capacity, s) && e.key !in s.registry
    ensures IsWindow(events + [e], capacity, Inserted(s, capacity, e))
  {
    var window := Window(events, capacity);
    HeadOfTable(window);
    WindowSlides(events, e, capacity);
    if |s.registry| >= capacity {
      EvictTakesOldest(window, s);
      AppendReflects(window[1..], Evicted(s).registry, Evicted(s).order, e);
    } else {
      AppendReflects(window, s.registry, s.order, e);
    }
  }

  /** The insertions a merge makes for the given keys. */
  ghost function NewEvents(remote: Registry, keys: seq<NonceKey>): seq<Event> {
    if keys == [] then
      []
    else
      NewEvents(remote, keys[..|keys| - 1]) +
      (var k := keys[|keys| - 1]; if k in remote then [Event(k, remote[k])] else [])
  }

  /** Taking over the remote entries for the given keys, one by one. */
  function TakeOver(registry: Registry, remote: Registry, keys: seq<NonceKey>): Registry {
    if keys == [] then
      registry
    else
      var taken := TakeOver(registry, remote, keys[..|keys| - 1]);
      var k := keys[|keys| - 1];
      if k in remote then taken[k := remote[k]] else taken
  }

  lemma {:induction false} TakeOverEntry(registry: Registry, remote: Registry, keys: seq<NonceKey>, k: NonceKey)
    ensures k in TakeOver(registry, remote, keys) <==> k in registry || (k in keys && k in remote)
    ensures k in keys && k in remote ==> TakeOver(registry, remote, keys)[k] == remote[k]
    ensures k in registry && k !in keys ==> TakeOver(registry, remote, keys)[k] == registry[k]
  {
    if keys != [] {
      var init, last := keys[..|keys| - 1], keys[|keys| - 1];
      assert keys == init + [last];
      TakeOverEntry(registry, remote, init, k);
    }
  }

  predicate NoRepeats(keys: seq<NonceKey>) {
    keys == [] || (NoRepeats(keys[..|keys| - 1]) && keys[|keys| - 1] !in keys[..|keys| - 1])
  }

  ghost predicate AllNew(keys: seq<NonceKey>, registry: Registry, remote: Registry) {
    forall k :: k in keys ==> k in remote && k !in registry
  }

  lemma {:induction false} TakeOverReflects(
    window: seq<Event>, registry: Registry, order: seq<NonceKey>, remote: Registry, keys: seq<NonceKey>)
    requires Reflects(window, registry, order) && NoRepeats(keys) && AllNew(keys, registry, remote)
    ensures Reflects(window + NewEvents(remote, keys), TakeOver(registry, remote, keys), order + keys)
  {
    if keys == [] {
      assert window + [] == window && order + [] == order;
    } else {
      var init, k := keys[..|keys| - 1], keys[|keys| - 1];
      assert keys == init + [k];
      TakeOverReflects(window, registry, order, remote, init);
      TakeOverEntry(registry, remote, init, k);
      AppendReflects(
        window + NewEvents(remote, init), TakeOver(registry, remote, init), order + init, Event(k, remote[k]));
      assert window + NewEvents(remote, init) + [Event(k, remote[k])] == window + NewEvents(remote, keys);
      assert order + init + [k] == order + keys;
    }
  }

  lemma {:induction false} DistinctHasNoRepeats(keys: seq<NonceKey>)
    requires forall i, j :: 0 <= i < j < |keys| ==> keys[i] != keys[j]
    ensures NoRepeats(keys)
  {
    if keys != [] {
      DistinctHasNoRepeats(keys[..|keys| - 1]);
    }
  }

  lemma NonceKeysListed(keys: set<NonceKey>)
    ensures forall k :: k in SortedNonceKeys(keys) <==> k in keys
    ensures NoRepeats(SortedNonceKeys(keys))
  {
    NonceOrder();
    Ordering.AscendingIsSorted(keys, NonceLe);
    DistinctHasNoRepeats(SortedNonceKeys(keys));
  }

  lemma TakeOverIsMerge(registry: Registry, remote: Registry, keys: seq<NonceKey>)
    requires forall k :: k in keys <==> k in remote && k !in registry
    ensures TakeOver(registry, remote, keys) == remote + registry
  {
    forall k
      ensures k in TakeOver(registry, remote, keys) <==> k in remote || k in registry
      ensures k in remote || k in registry ==> TakeOver(registry, remote, keys)[k] == (remote + registry)[k]
    {
      TakeOverEntry(registry, remote, keys, k);
    }
  }

  /** The registry and tracker after a merge, before making room. */
  ghost function Merged(s: Tracked, remote: Registry): Tracked {
    Tracked(remote + s.registry, s.order + SortedNonceKeys(remote.Keys - s.registry.Keys), s.dropped)
  }

  /** Evicting while there are too many entries. */
  function Shrunk(s: Tracked, capacity: nat): Tracked
    decreases |s.order|
  {
    if |s.registry| <= capacity then
      s
    else if !Evict(s.registry, s.order).2 then
      Evicted(s)
    else
      EvictShortens(s.registry, s.order);
      Shrunk(Evicted(s), capacity)
  }

  lemma {:induction false} EvictShortens(registry: Registry, order: seq<NonceKey>)
    ensures |Evict(registry, order).1| <= |order|
    ensures Evict(registry, order).2 ==> |Evict(registry, order).1| < |order|
    ensures !Evict(registry, order).2 ==> Evict(registry, order).0 == registry && Evict(registry, order).1 == []
  {
    if order != [] && order[0] !in registry {
      EvictShortens(registry, order[1..]);
    }
  }

  lemma OneEviction(all: seq<Event>, capacity: nat, s: Tracked)
    requires Reflects(all, s.registry, s.order) && capacity >= 1
    ensures |all| <= capacity ==> Shrunk(s, capacity) == s
    ensures |all| > capacity ==>
      && Shrunk(s, capacity) == Shrunk(Evicted(s), capacity)
      && Reflects(all[1..], Evicted(s).registry, Evicted(s).order) && Evicted(s).dropped == SatAdd(s.dropped, 1)
  {
    HeadOfTable(all);
    if |all| > capacity {
      EvictTakesOldest(all, s);
    }
  }

  lemma {:induction false} ShrinkingWindows(all: seq<Event>, capacity: nat, s: Tracked, n: nat)
    requires Reflects(all, s.registry, s.order) && s.dropped == Clamp(n) && capacity >= 1
    ensures Reflects(Window(all, capacity), Shrunk(s, capacity).registry, Shrunk(s, capacity).order)
    ensures Shrunk(s, capacity).dropped == Clamp(n + (|all| - Min(|all|, capacity)))
    decreases |all|
  {
    OneEviction(all, capacity, s);
    if |all| > capacity {
      ShrinkingWindows(all[1..], capacity, Evicted(s), n + 1);
      assert Window(all[1..], capacity) == Window(all, capacity);
    }
  }

  /** A merge moves the window over the insertions it makes. */
  lemma MergeSlidesWindow(events: seq<Event>, capacity: nat, s: Tracked, remote: Registry)
    requires capacity >= 1 && IsWindow(events, capacity, s)
    ensures var more := NewEvents(remote, SortedNonceKeys(remote.Keys - s.registry.Keys));
      IsWindow(events + more, capacity, Shrunk(Merged(s, remote), capacity))
  {
    var window, keys := Window(events, capacity), SortedNonceKeys(remote.Keys - s.registry.Keys);
    var more := NewEvents(remote, keys);
    NonceKeysListed(remote.Keys - s.registry.Keys);
    TakeOverReflects(window, s.registry, s.order, remote, keys);
    TakeOverIsMerge(s.registry, remote, keys);
    ShrinkingWindows(window + more, capacity, Merged(s, remote), |events| - Min(|events|, capacity));
    WindowAfterAppend(events, more, capacity);
  }

  /** The registry key and hash of a block; both must be the hexadecimal text of 32 bytes. */
  function EventFor(block: Block): Result<Event, Error> {
    match Hex.Decode(block.hash)
    case None => Err(SignatureInvalid)
    case Some(hash) =>
      if |hash| != 32 then
        Err(HashMismatch)
      else
        match Hex.Decode(block.account)
        case None => Err(InvalidKey)
        case Some(account) =>
          if |account| != 32 then Err(InvalidKey) else Ok(Event(NonceKey(account, block.nonce), hash))
  }

  /** What `add_block` answers, and the insertion it makes, if any. */
  function Admission(c: Crypto, registry: Registry, block: Block): (Result<(), Error>, Option<Event>) {
    if Validation.VerifyBlock(c, block).Err? then
      (Validation.VerifyBlock(c, block), None)
    else
      match EventFor(block)
      case Err(e) => (Err(e), None)
      case Ok(e) =>
        if e.key !in registry then (Ok(()), Some(e))
        else if registry[e.key] == e.hash then (Ok(()), None)
        else (Err(DoubleSpend(block.nonce)), None)
  }

  /** The registry key and hash that a block's texts stand for. */
  ghost predicate Names(block: Block, key: NonceKey, hash: Bytes32) {
    Hex.Decode(block.account) == Some(key.account) && key.nonce == block.nonce && Hex.Decode(block.hash) == Some(hash)
  }

  /** The block's account and nonce are registered with another hash. */
  ghost predicate Clashes(registry: Registry, block: Block) {
    exists key, hash :: Names(block, key, hash) && key in registry && registry[key] != hash
  }

  /** The block's account and nonce are free, or registered with its hash. */
  ghost predicate Agrees(registry: Registry, block: Block) {
    exists key, hash :: Names(block, key, hash) && (key in registry ==> registry[key] == hash)
  }

  lemma EventIsNamed(block: Block)
    ensures EventFor(block).Ok? ==> Names(block, EventFor(block).value.key, EventFor(block).value.hash)
    ensures forall key, hash :: Names(block, key, hash) ==> EventFor(block) == Ok(Event(key, hash))
  {
  }

  /** A block is taken exactly when it is genuine and agrees with the registry, it is a double spend exactly when it is
      genuine and clashes with it, and it is registered exactly when its account and nonce are new. */
  lemma AdmissionMeans(c: Crypto, registry: Registry, block: Block)
    ensures var (r, e) := Admission(c, registry, block);
      && (r.Ok? <==> Validation.Genuine(c, block) && Agrees(registry, block))
      && (r == Err(DoubleSpend(block.nonce)) <==> Validation.Genuine(c, block) && Clashes(registry, block))
      && (r.Err? ==> r.error in {InvalidKey, HashMismatch, SignatureInvalid, DoubleSpend(block.nonce)})
      && (forall key, hash :: e == Some(Event(key, hash)) <==>
                              Validation.Genuine(c, block) && Names(block, key, hash) && key !in registry)
  {
    Validation.VerifiesExactlyTheGenuine(c, block);
    EventIsNamed(block);
    if EventFor(block).Ok? {
      var key, hash := EventFor(block).value.key, EventFor(block).value.hash;
      assert Names(block, key, hash);
    }
  }

  /** What can happen to a node. */
  datatype Input =
    | Add(block: Block)
    | MergeFrom(remote: Registry)
    | Drain

  ghost function Respond(c: Crypto, capacity: nat, s: Tracked, input: Input): Tracked {
    match input
    case Add(block) =>
      (match Admission(c, s.registry, block).1
       case None => s
       case Some(e) => Inserted(s, capacity, e))
    case MergeFrom(remote) => Shrunk(Merged(s, remote), capacity)
    case Drain => s
  }

  /** The insertions an input makes. */
  ghost function InsertionsOf(c: Crypto, s: Tracked, input: Input): seq<Event> {
    match input
    case Add(block) =>
      (match Admission(c, s.registry, block).1
       case None => []
       case Some(e) => [e])
    case MergeFrom(remote) => NewEvents(remote, SortedNonceKeys(remote.Keys - s.registry.Keys))
    case Drain => []
  }

  ghost function After(c: Crypto, capacity: nat, inputs: seq<Input>): Tracked {
    if inputs == [] then Tracked(map[], [], 0)
    else Respond(c, capacity, After(c, capacity, inputs[..|inputs| - 1]), inputs[|inputs| - 1])
  }

  /** Every insertion of a run, in order. */
  ghost function AllInsertions(c: Crypto, capacity: nat, inputs: seq<Input>): seq<Event> {
    if inputs == [] then []
    else
      var init := inputs[..|inputs| - 1];
      AllInsertions(c, capacity, init) + InsertionsOf(c, After(c, capacity, init), inputs[|inputs| - 1])
  }

  /** After any run the registry is exactly the last `capacity` insertions of the whole run, the tracker their keys in
      insertion order without repeats, and nothing was lost track of: insertions are held or counted as dropped. */
  lemma {:induction false} EveryRunKeepsTheWindow(c: Crypto, capacity: nat, inputs: seq<Input>)
    requires capacity >= 1
    ensures var s := After(c, capacity, inputs);
      var events := AllInsertions(c, capacity, inputs);
      && IsWindow(events, capacity, s)
      && NoRepeats(s.order) && (forall k :: k in s.order <==> k in s.registry)
      && |s.order| == |s.registry| <= capacity
      && (s.dropped < U64_MAX ==> |events| == |s.registry| + s.dropped)
  {
    if inputs != [] {
      var init, input := inputs[..|inputs| - 1], inputs[|inputs| - 1];
      EveryRunKeepsTheWindow(c, capacity, init);
      RespondingSlidesWindow(c, capacity, AllInsertions(c, capacity, init), After(c, capacity, init), input);
    }
    WindowIsTracked(AllInsertions(c, capacity, inputs), capacity, After(c, capacity, inputs));
  }

  lemma RespondingSlidesWindow(c: Crypto, capacity: nat, events: seq<Event>, s: Tracked, input: Input)
    requires capacity >= 1 && IsWindow(events, capacity, s)
    ensures IsWindow(events + InsertionsOf(c, s, input), capacity, Respond(c, capacity, s, input))
  {
    match input {
      case Add(block) =>
        var e := Admission(c, s.registry, block).1;
        if e.Some? {
          InsertionSlidesWindow(events, capacity, s, e.value);
        } else {
          assert events + [] == events;
        }
      case MergeFrom(remote) =>
        MergeSlidesWindow(events, capacity, s, remote);
      case Drain =>
        assert events + [] == events;
    }
  }

  /** What it means for the tracker to reflect a window. */
  lemma WindowIsTracked(events: seq<Event>, capacity: nat, s: Tracked)
    requires IsWindow(events, capacity, s)
    ensures NoRepeats(s.order) && forall k :: k in s.order <==> k in s.registry
    ensures |s.order| == |s.registry| <= capacity
    ensures s.dropped < U64_MAX ==> |events| == |s.registry| + s.dropped
  {
    var window := Window(events, capacity);
    HeadOfTable(window);
    KeysAreTracked(window);
  }

  lemma {:induction false} KeysAreTracked(window: seq<Event>)
    requires DistinctKeys(window)
    ensures NoRepeats(KeysOf(window)) && forall k :: k in KeysOf(window) <==> k in TableOf(window)
  {
    if window != [] {
      var init := window[..|window| - 1];
      KeysAreTracked(init);
      assert KeysOf(window)[..|window| - 1] == KeysOf(init);
      assert KeysOf(window) == KeysOf(init) + [window[|window| - 1].key];
    }
  }

  class GossipNode {
    const crypto: Crypto
    const knownBlocksCapacity: nat
    const nonceRegistryCapacity: nat
    var knownBlocks: seq<Block>
    var nonceRegistry: Registry
    var pendingConflicts: seq<NonceConflict>
    var nonceRegistryOrder: seq<NonceKey>
    var knownBlocksDropped: u64
    var nonceRegistryDropped: u64
    /** Every insertion event and every accepted block so far. */
    ghost var events: seq<Event>
    ghost var accepted: seq<Block>

    ghost function View(): Tracked
      reads this
    {
      Tracked(nonceRegistry, nonceRegistryOrder, nonceRegistryDropped)
    }

    ghost predicate Valid()
      reads this
    {
      && nonceRegistryCapacity >= 1 && knownBlocksCapacity >= 1
      && IsWindow(events, nonceRegistryCapacity, View())
      && knownBlocks == Window(accepted, knownBlocksCapacity)
      && knownBlocksDropped == DroppedCount(accepted, knownBlocksCapacity)
    }

    constructor (c: Crypto, knownCapacity: nat, registryCapacity: nat)
      ensures Valid() && crypto == c && events == [] && accepted == [] && pendingConflicts == []
      ensures knownBlocksCapacity == (if knownCapacity == 0 then 1 else knownCapacity)
      ensures nonceRegistryCapacity == (if registryCapacity == 0 then 1 else registryCapacity)
    {
      crypto := c;
      knownBlocksCapacity := if knownCapacity == 0 then 1 else knownCapacity;
      nonceRegistryCapacity := if registryCapacity == 0 then 1 else registryCapacity;
      knownBlocks, nonceRegistry, pendingConflicts, nonceRegistryOrder := [], map[], [], [];
      knownBlocksDropped, nonceRegistryDropped := 0, 0;
      events, accepted := [], [];
    }

    method EvictOldestNonceEntry() returns (evicted: bool)
      modifies this`nonceRegistry, this`nonceRegistryOrder, this`nonceRegistryDropped
      ensures View() == Evicted(old(View()))
      ensures evicted <==> Evict(old(nonceRegistry), old(nonceRegistryOrder)).2
    {
      while nonceRegistryOrder != []
        invariant nonceRegistry == old(nonceRegistry) && nonceRegistryDropped == old(nonceRegistryDropped)
        invariant Evict(nonceRegistry, nonceRegistryOrder) == Evict(old(nonceRegistry), old(nonceRegistryOrder))
        decreases |nonceRegistryOrder|
      {
        var oldest := nonceRegistryOrder[0];
        nonceRegistryOrder := nonceRegistryOrder[1..];
        if oldest in nonceRegistry {
          nonceRegistry := nonceRegistry - {oldest};
          nonceRegistryDropped := SatAdd(nonceRegistryDropped, 1);
          return true;
        }
      }
      return false;
    }

    /** Appending a block to the known ones, dropping the oldest if there is no room. */
    method RememberBlock(block: Block)
      requires knownBlocksCapacity >= 1 && knownBlocks == Window(accepted, knownBlocksCapacity)
      requires knownBlocksDropped == DroppedCount(accepted, knownBlocksCapacity)
      modifies this`knownBlocks, this`knownBlocksDropped, this`accepted
      ensures accepted == old(accepted) + [block] && knownBlocks == Window(accepted, knownBlocksCapacity)
      ensures knownBlocksDropped == DroppedCount(accepted, knownBlocksCapacity)
    {
      WindowSlides(accepted, block, knownBlocksCapacity);
      if |knownBlocks| >= knownBlocksCapacity {
        knownBlocks := knownBlocks[1..];
        knownBlocksDropped := SatAdd(knownBlocksDropped, 1);
      }
      knownBlocks := knownBlocks + [block];
      accepted := accepted + [block];
    }

    /** Registering a new key, evicting the oldest entry if there is no room. */
    method InsertEntry(event: Event)
      requires nonceRegistryCapacity >= 1 && IsWindow(events, nonceRegistryCapacity, View())
      requires event.key !in nonceRegistry
      modifies this`nonceRegistry, this`nonceRegistryOrder, this`nonceRegistryDropped, this`events
      ensures IsWindow(events, nonceRegistryCapacity, View()) && events == old(events) + [event]
    {
      InsertionSlidesWindow(events, nonceRegistryCapacity, View(), event);
      if |nonceRegistry| >= nonceRegistryCapacity {
        var _ := EvictOldestNonceEntry();
      }
      nonceRegistry := nonceRegistry[event.key := event.hash];
      nonceRegistryOrder := nonceRegistryOrder + [event.key];
      assert View() == Inserted(old(View()), nonceRegistryCapacity, event);
      events := events + [event];
    }

    /** `add_block`: a new account and nonce is one insertion, a repeat changes nothing, and a different hash for a
        registered account and nonce is a double spend. */
    method AddBlock(block: Block) returns (r: Result<(), Error>)
      requires Valid()
      modifies this
      ensures Valid() && pendingConflicts == old(pendingConflicts)
      ensures r == Admission(crypto, old(nonceRegistry), block).0
      ensures r.Ok? <==> Validation.Genuine(crypto, block) && Agrees(old(nonceRegistry), block)
      ensures r == Err(DoubleSpend(block.nonce)) <==>
              Validation.Genuine(crypto, block) && Clashes(old(nonceRegistry), block)
      ensures match Admission(crypto, old(nonceRegistry), block).1
        case Some(e) => events == old(events) + [e] && accepted == old(accepted) + [block]
        case None => unchanged(this)
    {
      AdmissionMeans(crypto, nonceRegistry, block);
      var verified := Validation.VerifyBlock(crypto, block);
      if verified.Err? {
        return verified;
      }
      var event := EventFor(block);
      if event.Err? {
        return Err(event.error);
      }
      var key, hash := event.value.key, event.value.hash;
      if key in nonceRegistry {
        if nonceRegistry[key] == hash {
          return Ok(());
        }
        return Err(DoubleSpend(block.nonce));
      }
      InsertEntry(event.value);
      RememberBlock(block);
      r := Ok(());
    }

    /** Appending the keys a merge brought in to the order tracker, in key order. */
    method TrackNewKeys(added: set<NonceKey>)
      modifies this`nonceRegistryOrder
      ensures nonceRegistryOrder == old(nonceRegistryOrder) + SortedNonceKeys(added)
    {
      var todo := added;
      ghost var keys: seq<NonceKey> := [];
      while todo != {}
        invariant keys + SortedNonceKeys(todo) == SortedNonceKeys(added)
        invariant nonceRegistryOrder == old(nonceRegistryOrder) + keys
        decreases todo
      {
        LeastNonceKeyExists(todo);
        var k :| k in todo && IsLeastNonceKey(todo, k);
        LeastNonceKeyFirst(todo, k);
        nonceRegistryOrder := nonceRegistryOrder + [k];
        keys := keys + [k];
        todo := todo - {k};
      }
    }

    /** Evicting the oldest entries until the rest fits. */
    method EvictToCapacity()
      modifies this`nonceRegistry, this`nonceRegistryOrder, this`nonceRegistryDropped
      ensures View() == Shrunk(old(View()), nonceRegistryCapacity)
    {
      while |nonceRegistry| > nonceRegistryCapacity
        invariant Shrunk(View(), nonceRegistryCapacity) == Shrunk(old(View()), nonceRegistryCapacity)
        decreases |nonceRegistryOrder|
      {
        EvictShortens(nonceRegistry, nonceRegistryOrder);
        var evicted := EvictOldestNonceEntry();
        if !evicted {
          // The tracker ran empty: only direct mutation of the registry can lead here.
          return;
        }
      }
    }

    /** The merge itself: new entries enter the registry and, in key order, the tracker. */
    method MergeAndTrack(remote: Registry) returns (conflicts: seq<NonceConflict>)
      modifies this`nonceRegistry, this`nonceRegistryOrder
      ensures View() == Merged(old(View()), remote)
      ensures conflicts == ConflictsBetween(old(nonceRegistry), remote)
    {
      var preKeys := nonceRegistry.Keys;
      nonceRegistry, conflicts := MergeNonceRegistries(nonceRegistry, remote);
      assert nonceRegistry.Keys - preKeys == remote.Keys - preKeys;
      TrackNewKeys(nonceRegistry.Keys - preKeys);
    }

    /** The merge with its evictions, as far as the registry is concerned. */
    method MergeWindow(remote: Registry) returns (conflicts: seq<NonceConflict>)
      requires nonceRegistryCapacity >= 1 && IsWindow(events, nonceRegistryCapacity, View())
      modifies this`nonceRegistry, this`nonceRegistryOrder, this`nonceRegistryDropped, this`events
      ensures IsWindow(events, nonceRegistryCapacity, View())
      ensures events == old(events) + NewEvents(remote, SortedNonceKeys(remote.Keys - old(nonceRegistry).Keys))
      ensures conflicts == ConflictsBetween(old(nonceRegistry), remote)
    {
      MergeSlidesWindow(events, nonceRegistryCapacity, View(), remote);
      events := events + NewEvents(remote, SortedNonceKeys(remote.Keys - nonceRegistry.Keys));
      conflicts := MergeAndTrack(remote);
      EvictToCapacity();
    }

    /** `merge_registry`: the new keys are inserted in key order, then the oldest entries make room. */
    method MergeRegistry(remote: Registry) returns (conflicts: seq<NonceConflict>)
      requires Valid()
      modifies this
      ensures Valid() && accepted == old(accepted) && knownBlocks == old(knownBlocks)
      ensures conflicts == ConflictsBetween(old(nonceRegistry), remote)
      ensures pendingConflicts == old(pendingConflicts) + conflicts
      ensures events == old(events) + NewEvents(remote, SortedNonceKeys(remote.Keys - old(nonceRegistry).Keys))
    {
      conflicts := MergeWindow(remote);
      pendingConflicts := pendingConflicts + conflicts;
    }

    method DrainPendingConflicts() returns (conflicts: seq<NonceConflict>)
      requires Valid()
      modifies this`pendingConflicts
      ensures Valid() && conflicts == old(pendingConflicts) && pendingConflicts == []
    {
      conflicts := pendingConflicts;
      pendingConflicts := [];
    }
  }
}
