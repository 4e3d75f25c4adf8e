/** Merging the blocks of two network partitions into one set of balances. */
module Reconciliation {
  import opened Common
  import opened Sums
  import opened Ordering
  import opened Blocks
  import opened Flows
  import opened PNCounter

  datatype Key = Key(account: string, nonce: nat)

  function KeyOf(b: Block): Key {
    Key(b.account, b.nonce)
  }

  predicate KeyLe(x: Key, y: Key) {
    if x.account == y.account then x.nonce <= y.nonce else StringLe(x.account, y.account)
  }

  lemma KeyOrder()
    ensures TotalOrder(KeyLe)
  {
    StringOrder();
  }

  datatype ResolvedConflict = ResolvedConflict(
    account: string, nonce: nat, winnerHash: string, loserHashes: seq<string>)

  datatype Reason = SourceNotFound | DestinationMismatch

  datatype RejectedReceive = RejectedReceive(
    account: string, nonce: nat, receiveHash: string, sourceHash: string, reason: Reason)

  datatype RejectedGenesis = RejectedGenesis(account: string, nonce: nat, blockHash: string)

  datatype Report = Report(
    balances: map<string, int>,
    conflicts: seq<ResolvedConflict>,
    rejectedReceives: seq<RejectedReceive>,
    rejectedGenesis: seq<RejectedGenesis>)

  // ---- What a set of blocks with distinct hashes reconciles to ----

  ghost predicate HasHash(blocks: seq<Block>, h: string) {
    exists x :: x in blocks && x.hash == h
  }

  /** The first block of every hash. */
  ghost function Dedup(blocks: seq<Block>): seq<Block> {
    if blocks == [] then
      []
    else
      var kept := Dedup(blocks[..|blocks| - 1]);
      var b := blocks[|blocks| - 1];
      if HasHash(kept, b.hash) then kept else kept + [b]
  }

  ghost predicate Distinct<T>(xs: seq<T>) {
    forall i, j :: 0 <= i < j < |xs| ==> xs[i] != xs[j]
  }

  ghost function Keys(blocks: set<Block>): set<Key> {
    set b | b in blocks :: KeyOf(b)
  }

  ghost function Group(blocks: set<Block>, k: Key): set<Block> {
    set b | b in blocks && KeyOf(b) == k
  }

  ghost function Hashes(blocks: set<Block>): set<string> {
    set b | b in blocks :: b.hash
  }

  predicate HasLeastHash(group: set<Block>, w: Block) {
    w in group && forall x :: x in group ==> StringLe(w.hash, x.hash)
  }

  lemma LeastHashExists(group: set<Block>)
    requires group != {}
    ensures exists w :: HasLeastHash(group, w)
  {
    StringOrder();
    var b :| b in group;
    assert b.hash in Hashes(group);
    var h := Least(Hashes(group), StringLe);
    var w :| w in group && w.hash == h;
    assert HasLeastHash(group, w);
  }

  ghost function WinnerOf(blocks: set<Block>, k: Key): (w: Block)
    requires k in Keys(blocks)
    ensures HasLeastHash(Group(blocks, k), w)
  {
    assert Group(blocks, k) != {} by {
      var b :| b in blocks && KeyOf(b) == k;
      assert b in Group(blocks, k);
    }
    LeastHashExists(Group(blocks, k));
    var w :| HasLeastHash(Group(blocks, k), w);
    w
  }

  lemma WinnerIsUnique(blocks: set<Block>, k: Key, w: Block)
    requires HashUnique(blocks) && k in Keys(blocks) && HasLeastHash(Group(blocks, k), w)
    ensures w == WinnerOf(blocks, k)
  {
    StringOrder();
  }

  /** At most one block per account and nonce counts: the one with the least hash. */
  ghost function Winners(blocks: set<Block>): set<Block> {
    set k | k in Keys(blocks) :: WinnerOf(blocks, k)
  }

  /** The hashes of a set of blocks in ascending order. */
  ghost function SortedHashes(blocks: set<Block>): seq<string> {
    StringOrder();
    Ascending(Hashes(blocks), StringLe)
  }

  ghost function LoserHashes(blocks: set<Block>, k: Key): seq<string>
    requires k in Keys(blocks)
  {
    SortedHashes(Group(blocks, k) - {WinnerOf(blocks, k)})
  }

  ghost function ConflictAt(blocks: set<Block>, k: Key): ResolvedConflict
    requires k in Keys(blocks)
  {
    ResolvedConflict(k.account, k.nonce, WinnerOf(blocks, k).hash, LoserHashes(blocks, k))
  }

  ghost predicate Contested(blocks: set<Block>, k: Key) {
    |Group(blocks, k)| > 1
  }

  ghost function ConflictsOf(blocks: set<Block>): set<ResolvedConflict> {
    set k | k in Keys(blocks) && Contested(blocks, k) :: ConflictAt(blocks, k)
  }

  /** A list of conflicts that holds exactly those of a set, each once. */
  ghost predicate Lists(conflicts: seq<ResolvedConflict>, these: set<ResolvedConflict>) {
    Distinct(conflicts) && forall x :: x in conflicts <==> x in these
  }

  /** Whether a winning block reaches its account's counter. */
  predicate Moves(sends: map<string, Block>, w: Block) {
    (w.kind.Open? && w.nonce == 1) || w.kind.Send? || Accepted(sends, w)
  }

  /** Every account that a winner moves has a node name: the code takes the first eight characters. */
  ghost predicate MoversAreNamed(winners: set<Block>, sends: map<string, Block>) {
    forall w {:trigger Moves(sends, w)} :: w in winners && Moves(sends, w) ==> |w.account| >= 8
  }

  ghost function MovedAccounts(winners: set<Block>, sends: map<string, Block>): set<string> {
    set w | w in winners && Moves(sends, w) :: w.account
  }

  ghost function BalanceOf(winners: set<Block>, sends: map<string, Block>, a: string): int {
    Settle(
      ClampedSum(BlocksFor(winners, a), Credits(sends)),
      ClampedSum(BlocksFor(winners, a), SendAmount))
  }

  /** The balances of the accounts that some winner moved. */
  ghost predicate AreBalances(m: map<string, int>, winners: set<Block>, sends: map<string, Block>) {
    && m.Keys == MovedAccounts(winners, sends)
    && forall a {:trigger BalanceOf(winners, sends, a)} :: a in m ==> m[a] == BalanceOf(winners, sends, a)
  }

  /** The winners by ascending account and nonce. */
  ghost function WinnersInOrder(blocks: set<Block>): seq<Block> {
    WinnersAt(blocks, SortedKeys(Keys(blocks)))
  }

  ghost function WinnersAt(blocks: set<Block>, keys: seq<Key>): seq<Block> {
    if keys == [] then []
    else
      WinnersAt(blocks, keys[..|keys| - 1]) +
      (var k := keys[|keys| - 1]; if k in Keys(blocks) then [WinnerOf(blocks, k)] else [])
  }

  function ReceiveRejection(sends: map<string, Block>, w: Block): seq<RejectedReceive> {
    if !w.kind.Receive? || Accepted(sends, w) then
      []
    else
      [RejectedReceive(w.account, w.nonce, w.hash, w.kind.sourceHash,
                       if w.kind.sourceHash in sends then DestinationMismatch else SourceNotFound)]
  }

  function GenesisRejection(w: Block): seq<RejectedGenesis> {
    if w.kind.Open? && w.nonce != 1 then [RejectedGenesis(w.account, w.nonce, w.hash)] else []
  }

  function ReceiveRejections(sends: map<string, Block>, ws: seq<Block>): seq<RejectedReceive> {
    if ws == [] then []
    else ReceiveRejections(sends, ws[..|ws| - 1]) + ReceiveRejection(sends, ws[|ws| - 1])
  }

  function GenesisRejections(ws: seq<Block>): seq<RejectedGenesis> {
    if ws == [] then []
    else GenesisRejections(ws[..|ws| - 1]) + GenesisRejection(ws[|ws| - 1])
  }

  lemma WinnersHashUnique(blocks: set<Block>)
    requires HashUnique(blocks)
    ensures Winners(blocks) <= blocks && HashUnique(Winners(blocks))
  {
  }

  /** The outcome of reconciling a set of blocks: an error naming some account with a negative balance if there is
      one, and otherwise the balances, the conflicts in any order, and the rejections in key order. */
  ghost predicate Describes(blocks: set<Block>, r: Result<Report, Error>)
    requires HashUnique(blocks)
  {
    WinnersHashUnique(blocks);
    var sends := SendsByHash(Winners(blocks));
    match r
    case Err(e) =>
      && e.NegativeBalance? && e.account in MovedAccounts(Winners(blocks), sends)
      && e.balance == BalanceOf(Winners(blocks), sends, e.account) && e.balance < 0
    case Ok(report) =>
      && AreBalances(report.balances, Winners(blocks), sends)
      && (forall a :: a in report.balances ==> report.balances[a] >= 0)
      && Lists(report.conflicts, ConflictsOf(blocks))
      && report.rejectedReceives == ReceiveRejections(sends, WinnersInOrder(blocks))
      && report.rejectedGenesis == GenesisRejections(WinnersInOrder(blocks))
  }

  // ---- The algorithm, stage by stage ----

  lemma {:induction false} DedupIsHashUnique(blocks: seq<Block>)
    ensures HashUnique(Elements(Dedup(blocks))) && Distinct(Dedup(blocks))
    ensures Elements(Dedup(blocks)) <= Elements(blocks)
    ensures forall b :: b in blocks ==> HasHash(Dedup(blocks), b.hash)
  {
    if blocks != [] {
      var init, b := blocks[..|blocks| - 1], blocks[|blocks| - 1];
      var kept := Dedup(init);
      DedupIsHashUnique(init);
      assert blocks == init + [b];
      if !HasHash(kept, b.hash) {
        assert Elements(kept + [b]) == Elements(kept) + {b};
        forall x | x in Elements(kept) ensures x.hash != b.hash {
          assert x in kept;
        }
        assert b !in kept;
      }
      forall x | x in blocks ensures HasHash(Dedup(blocks), x.hash) {
        if HasHash(kept, x.hash) {
          var y :| y in kept && y.hash == x.hash;
          assert y in Dedup(blocks);
        } else {
          assert b in Dedup(blocks);
        }
      }
    }
  }

  /** Whether a result is an outcome of reconciling two partitions. */
  ghost predicate Reconciles(partitionA: seq<Block>, partitionB: seq<Block>, r: Result<Report, Error>) {
    DedupIsHashUnique(partitionA + partitionB);
    Describes(Elements(Dedup(partitionA + partitionB)), r)
  }

  method DedupByHash(partitionA: seq<Block>, partitionB: seq<Block>) returns (all: seq<Block>)
    ensures all == Dedup(partitionA + partitionB)
  {
    var blocks := partitionA + partitionB;
    var seen: set<string> := {};
    all := [];
    for i := 0 to |blocks|
      invariant all == Dedup(blocks[..i])
      invariant forall h :: h in seen <==> HasHash(all, h)
    {
      assert blocks[..i + 1][..i] == blocks[..i];
      var b := blocks[i];
      if b.hash !in seen {
        seen := seen + {b.hash};
        all := all + [b];
      }
    }
    assert blocks[..|blocks|] == blocks;
  }

  /** Whether a table of groups holds exactly the blocks of a set, each once. */
  ghost predicate Groups(blocks: set<Block>, byKey: map<Key, seq<Block>>) {
    && byKey.Keys == Keys(blocks)
    && forall k :: k in byKey ==> Elements(byKey[k]) == Group(blocks, k) && Distinct(byKey[k])
  }

  method GroupByKey(all: seq<Block>) returns (byKey: map<Key, seq<Block>>)
    requires Distinct(all)
    ensures Groups(Elements(all), byKey)
  {
    byKey := map[];
    for i := 0 to |all|
      invariant Groups(Elements(all[..i]), byKey)
    {
      var b := all[i];
      GroupsExtend(Elements(all[..i]), byKey, b);
      assert all[..i + 1] == all[..i] + [b];
      assert Elements(all[..i + 1]) == Elements(all[..i]) + {b};
      byKey := byKey[KeyOf(b) := (if KeyOf(b) in byKey then byKey[KeyOf(b)] else []) + [b]];
    }
    assert all[..|all|] == all;
  }

  lemma GroupsExtend(blocks: set<Block>, byKey: map<Key, seq<Block>>, b: Block)
    requires Groups(blocks, byKey) && b !in blocks
    ensures Groups(blocks + {b},
                   byKey[KeyOf(b) := (if KeyOf(b) in byKey then byKey[KeyOf(b)] else []) + [b]])
  {
    var mine := if KeyOf(b) in byKey then byKey[KeyOf(b)] else [];
    assert Elements(mine) == Group(blocks, KeyOf(b)) by {
      forall x | x in blocks && KeyOf(x) == KeyOf(b) ensures KeyOf(b) in byKey {
        assert KeyOf(x) in Keys(blocks);
      }
    }
    assert Elements(mine + [b]) == Elements(mine) + {b};
    assert Group(blocks + {b}, KeyOf(b)) == Group(blocks, KeyOf(b)) + {b};
    assert b !in Elements(mine);
    assert b !in mine;
    forall k | k != KeyOf(b)
      ensures Group(blocks + {b}, k) == Group(blocks, k)
    {
    }
    assert Keys(blocks + {b}) == Keys(blocks) + {KeyOf(b)};
  }

  function HashesOf(blocks: seq<Block>): seq<string> {
    seq(|blocks|, i requires 0 <= i < |blocks| => blocks[i].hash)
  }

  lemma LeastHashFirst(blocks: set<Block>, b: Block)
    requires HashUnique(blocks) && HasLeastHash(blocks, b)
    ensures SortedHashes(blocks) == [b.hash] + SortedHashes(blocks - {b})
  {
    StringOrder();
    assert b.hash in Hashes(blocks);
    assert Least(Hashes(blocks), StringLe) == b.hash;
    assert Hashes(blocks) - {b.hash} == Hashes(blocks - {b});
  }

  lemma SortStep(sorted: seq<Block>, todo: set<Block>, b: Block)
    requires HashUnique(todo) && HasLeastHash(todo, b)
    ensures HashesOf(sorted + [b]) + SortedHashes(todo - {b}) == HashesOf(sorted) + SortedHashes(todo)
    ensures Elements(sorted + [b]) + (todo - {b}) == Elements(sorted) + todo
  {
    LeastHashFirst(todo, b);
    assert HashesOf(sorted + [b]) == HashesOf(sorted) + [b.hash];
    assert Elements(sorted + [b]) == Elements(sorted) + {b};
  }

  /** `sort_by` on hashes. */
  method SortByHash(group: seq<Block>) returns (sorted: seq<Block>)
    requires HashUnique(Elements(group))
    ensures HashesOf(sorted) == SortedHashes(Elements(group))
    ensures Elements(sorted) == Elements(group)
  {
    sorted := [];
    var todo := set b | b in group;
    assert HashesOf(sorted) + SortedHashes(todo) == SortedHashes(todo);
    while todo != {}
      invariant HashUnique(todo)
      invariant HashesOf(sorted) + SortedHashes(todo) == SortedHashes(Elements(group))
      invariant Elements(sorted) + todo == Elements(group)
      decreases todo
    {
      LeastHashExists(todo);
      var b :| b in todo && HasLeastHash(todo, b);
      SortStep(sorted, todo, b);
      sorted := sorted + [b];
      todo := todo - {b};
    }
    assert SortedHashes(todo) == [];
  }

  lemma {:induction false} DistinctSize(blocks: seq<Block>)
    requires Distinct(blocks)
    ensures |Elements(blocks)| == |blocks|
  {
    if blocks == [] {
      assert Elements(blocks) == {};
    } else {
      var init, b := blocks[..|blocks| - 1], blocks[|blocks| - 1];
      DistinctSize(init);
      assert Elements(blocks) == Elements(init) + {b};
      assert b !in Elements(init);
    }
  }

  ghost predicate WinnerTable(blocks: set<Block>, winners: map<Key, Block>) {
    winners.Keys == Keys(blocks) && forall k :: k in winners ==> winners[k] == WinnerOf(blocks, k)
  }

  ghost function ConflictsIn(blocks: set<Block>, keys: set<Key>): set<ResolvedConflict>
    requires keys <= Keys(blocks)
  {
    set k | k in keys && Contested(blocks, k) :: ConflictAt(blocks, k)
  }

  lemma SingletonWins(blocks: set<Block>, k: Key, group: seq<Block>)
    requires k in Keys(blocks) && Elements(group) == Group(blocks, k) && Distinct(group)
    ensures Contested(blocks, k) <==> |group| != 1
    ensures |group| == 1 ==> group[0] == WinnerOf(blocks, k)
  {
    DistinctSize(group);
    assert WinnerOf(blocks, k) in Elements(group);
  }

  lemma SortedGroup(blocks: set<Block>, k: Key, sorted: seq<Block>)
    requires HashUnique(blocks) && k in Keys(blocks)
    requires HashesOf(sorted) == SortedHashes(Group(blocks, k)) && Elements(sorted) == Group(blocks, k)
    ensures sorted != [] && sorted[0] == WinnerOf(blocks, k)
    ensures HashesOf(sorted[1..]) == LoserHashes(blocks, k)
  {
    var w := WinnerOf(blocks, k);
    assert w in Elements(sorted);
    LeastHashFirst(Group(blocks, k), w);
    assert HashesOf(sorted)[0] == w.hash;
    assert HashesOf(sorted)[1..] == HashesOf(sorted[1..]);
    assert sorted[0] in Elements(sorted);
  }

  /** The winner of one group and the conflict it settles, if any. */
  method ResolveGroup(k: Key, group: seq<Block>, ghost blocks: set<Block>)
    returns (winner: Block, conflict: seq<ResolvedConflict>)
    requires HashUnique(blocks) && k in Keys(blocks)
    requires Elements(group) == Group(blocks, k) && Distinct(group)
    ensures winner == WinnerOf(blocks, k)
    ensures conflict == if Contested(blocks, k) then [ConflictAt(blocks, k)] else []
  {
    SingletonWins(blocks, k, group);
    if |group| == 1 {
      return group[0], [];
    }
    var sorted := SortByHash(group);
    SortedGroup(blocks, k, sorted);
    winner := sorted[0];
    conflict := [ResolvedConflict(k.account, k.nonce, winner.hash, HashesOf(sorted[1..]))];
  }

  lemma ConflictsGrow(blocks: set<Block>, keys: set<Key>, k: Key)
    requires keys + {k} <= Keys(blocks) && k !in keys
    ensures ConflictAt(blocks, k) !in ConflictsIn(blocks, keys)
    ensures ConflictsIn(blocks, keys + {k}) ==
            ConflictsIn(blocks, keys) + (if Contested(blocks, k) then {ConflictAt(blocks, k)} else {})
  {
  }

  lemma ListGrows(conflicts: seq<ResolvedConflict>, blocks: set<Block>, keys: set<Key>, k: Key)
    requires keys + {k} <= Keys(blocks) && k !in keys && Lists(conflicts, ConflictsIn(blocks, keys))
    ensures Lists(conflicts + (if Contested(blocks, k) then [ConflictAt(blocks, k)] else []),
                  ConflictsIn(blocks, keys + {k}))
  {
    ConflictsGrow(blocks, keys, k);
    assert conflicts + [] == conflicts;
  }

  method PickWinners(byKey: map<Key, seq<Block>>, ghost blocks: set<Block>)
    returns (winners: map<Key, Block>, conflicts: seq<ResolvedConflict>)
    requires HashUnique(blocks) && Groups(blocks, byKey)
    ensures WinnerTable(blocks, winners)
    ensures Lists(conflicts, ConflictsOf(blocks))
  {
    winners := map[];
    conflicts := [];
    var todo := byKey.Keys;
    assert ConflictsIn(blocks, {}) == {};
    while todo != {}
      invariant todo <= byKey.Keys && winners.Keys == byKey.Keys - todo
      invariant forall k :: k in winners ==> winners[k] == WinnerOf(blocks, k)
      invariant Lists(conflicts, ConflictsIn(blocks, byKey.Keys - todo))
      decreases todo
    {
      var k :| k in todo;
      var winner, conflict := ResolveGroup(k, byKey[k], blocks);
      ListGrows(conflicts, blocks, byKey.Keys - todo, k);
      assert byKey.Keys - (todo - {k}) == byKey.Keys - todo + {k};
      winners := winners[k := winner];
      conflicts := conflicts + conflict;
      todo := todo - {k};
    }
    assert byKey.Keys - todo == Keys(blocks);
  }

  /** Whether a table holds the SENDs among the winners, by hash. */
  ghost predicate SendTable(winners: map<Key, Block>, keys: set<Key>, sends: map<string, Block>) {
    && (forall h :: h in sends ==> exists k :: k in keys && k in winners && SendAt(winners[k], h, sends[h]))
    && (forall k :: k in keys && k in winners && winners[k].kind.Send? ==> winners[k].hash in sends)
  }

  ghost predicate SendAt(w: Block, h: string, s: Block) {
    w == s && w.kind.Send? && w.hash == h
  }

  method IndexSends(winners: map<Key, Block>) returns (sends: map<string, Block>)
    ensures SendTable(winners, winners.Keys, sends)
  {
    sends := map[];
    var todo := winners.Keys;
    while todo != {}
      invariant todo <= winners.Keys
      invariant SendTable(winners, winners.Keys - todo, sends)
      decreases todo
    {
      var k :| k in todo;
      if winners[k].kind.Send? {
        ghost var before := sends;
        sends := sends[winners[k].hash := winners[k]];
        forall h | h in sends
          ensures exists j :: j in winners.Keys - (todo - {k}) && SendAt(winners[j], h, sends[h])
        {
          if h == winners[k].hash {
            assert SendAt(winners[k], h, sends[h]);
          } else {
            var j :| j in winners.Keys - todo && SendAt(winners[j], h, before[h]);
            assert SendAt(winners[j], h, sends[h]);
          }
        }
      }
      todo := todo - {k};
    }
    assert winners.Keys - todo == winners.Keys;
  }

  lemma SendTableEntry(winning: set<Block>, winners: map<Key, Block>, sends: map<string, Block>, h: string)
    requires HashUnique(winning) && winning == winners.Values && SendTable(winners, winners.Keys, sends)
    ensures h in sends <==> h in SendsByHash(winning)
    ensures h in sends ==> sends[h] == SendsByHash(winning)[h]
  {
    if h in sends {
      var k :| k in winners && SendAt(winners[k], h, sends[h]);
      SendIsIndexed(winning, winners[k]);
    }
    if h in SendsByHash(winning) {
      var k :| k in winners && winners[k] == SendsByHash(winning)[h];
      assert winners[k].hash in sends;
    }
  }

  lemma SendTableIsIndex(winning: set<Block>, winners: map<Key, Block>, sends: map<string, Block>)
    requires HashUnique(winning) && winning == winners.Values && SendTable(winners, winners.Keys, sends)
    ensures sends == SendsByHash(winning)
  {
    forall h
      ensures h in sends <==> h in SendsByHash(winning)
      ensures h in sends ==> sends[h] == SendsByHash(winning)[h]
    {
      SendTableEntry(winning, winners, sends, h);
    }
  }

  lemma WinnerTableValues(blocks: set<Block>, winners: map<Key, Block>)
    requires WinnerTable(blocks, winners)
    ensures winners.Values == Winners(blocks)
  {
    forall k | k in winners
      ensures winners[k] in Winners(blocks)
    {
    }
    forall w | w in Winners(blocks)
      ensures w in winners.Values
    {
      var k :| k in Keys(blocks) && w == WinnerOf(blocks, k);
      assert winners[k] == w;
    }
  }

  // ---- Applying the winners to counters ----

  ghost function CounterAt(crdts: map<string, Counter>, a: string): Counter {
    if a in crdts then crdts[a] else ZERO_COUNTER
  }

  /** A counter holds, under one node name, the credits and debits of its account. */
  ghost predicate CounterMatches(c: Counter, winners: set<Block>, sends: map<string, Block>, a: string) {
    && |a| >= 8
    && c.p.Keys <= {a[..8]}
    && c.n.Keys <= {a[..8]}
    && TotalOf(c.p) == ClampedSum(BlocksFor(winners, a), Credits(sends))
    && TotalOf(c.n) == ClampedSum(BlocksFor(winners, a), SendAmount)
  }

  ghost predicate CountersMatch(crdts: map<string, Counter>, winners: set<Block>, sends: map<string, Block>) {
    && crdts.Keys == MovedAccounts(winners, sends)
    && forall a {:trigger CounterMatches(CounterAt(crdts, a), winners, sends, a)} :: |a| >= 8 ==>
         CounterMatches(CounterAt(crdts, a), winners, sends, a)
  }

  /** What one more winner does to the sums of an account. */
  lemma SumsStep(winners: set<Block>, w: Block, sends: map<string, Block>, a: string)
    requires w !in winners
    ensures a != w.account ==> BlocksFor(winners + {w}, a) == BlocksFor(winners, a)
    ensures a == w.account ==>
      && SumOver(BlocksFor(winners + {w}, a), Credits(sends)) ==
         SumOver(BlocksFor(winners, a), Credits(sends)) + Credit(sends, w)
      && SumOver(BlocksFor(winners + {w}, a), SendAmount) == SumOver(BlocksFor(winners, a), SendAmount) + SendAmount(w)
    ensures SumOver(BlocksFor(winners, a), Credits(sends)) >= 0 && SumOver(BlocksFor(winners, a), SendAmount) >= 0
  {
    SumNonNegative(BlocksFor(winners, a), Credits(sends));
    SumNonNegative(BlocksFor(winners, a), SendAmount);
    if a == w.account {
      assert BlocksFor(winners + {w}, a) == BlocksFor(winners, a) + {w};
      SumAdd(BlocksFor(winners, a), Credits(sends), w);
      SumAdd(BlocksFor(winners, a), SendAmount, w);
    } else {
      assert BlocksFor(winners + {w}, a) == BlocksFor(winners, a);
    }
  }

  lemma MovedStep(winners: set<Block>, w: Block, sends: map<string, Block>)
    ensures MovedAccounts(winners + {w}, sends) ==
            MovedAccounts(winners, sends) + (if Moves(sends, w) then {w.account} else {})
  {
  }

  /** The counters after one winner: a credit, a debit or nothing. */
  function Applied(crdts: map<string, Counter>, sends: map<string, Block>, w: Block): map<string, Counter>
    requires Moves(sends, w) ==> |w.account| >= 8
  {
    var c := if w.account in crdts then crdts[w.account] else ZERO_COUNTER;
    if !Moves(sends, w) then
      crdts
    else if w.kind.Send? then
      crdts[w.account := Debited(c, w.account[..8], w.kind.amount)]
    else
      crdts[w.account := Credited(c, w.account[..8], Credit(sends, w))]
  }

  /** The step of one account's counter. */
  lemma CounterStep(c: Counter, winners: set<Block>, sends: map<string, Block>, w: Block)
    requires CounterMatches(c, winners, sends, w.account) && w !in winners
    ensures !Moves(sends, w) ==> CounterMatches(c, winners + {w}, sends, w.account)
    ensures w.kind.Send? ==>
      CounterMatches(Debited(c, w.account[..8], w.kind.amount), winners + {w}, sends, w.account)
    ensures Moves(sends, w) && !w.kind.Send? ==>
      CounterMatches(Credited(c, w.account[..8], Credit(sends, w)), winners + {w}, sends, w.account)
  {
    SumsStep(winners, w, sends, w.account);
    if w.kind.Send? {
      BumpAddsToTotal(c.n, w.account[..8], w.kind.amount, SumOver(BlocksFor(winners, w.account), SendAmount));
    } else if Moves(sends, w) {
      BumpAddsToTotal(c.p, w.account[..8], Credit(sends, w), SumOver(BlocksFor(winners, w.account), Credits(sends)));
    }
  }

  lemma AppliedMatches(crdts: map<string, Counter>, winners: set<Block>, sends: map<string, Block>, w: Block)
    requires CountersMatch(crdts, winners, sends) && w !in winners && (Moves(sends, w) ==> |w.account| >= 8)
    ensures CountersMatch(Applied(crdts, sends, w), winners + {w}, sends)
  {
    var crdts' := Applied(crdts, sends, w);
    MovedStep(winners, w, sends);
    forall a | |a| >= 8
      ensures CounterMatches(CounterAt(crdts', a), winners + {w}, sends, a)
    {
      assert CounterMatches(CounterAt(crdts, a), winners, sends, a);
      if a == w.account {
        CounterStep(CounterAt(crdts, a), winners, sends, w);
      } else {
        SumsStep(winners, w, sends, a);
      }
    }
  }

  ghost function SortedKeys(keys: set<Key>): seq<Key> {
    KeyOrder();
    Ascending(keys, KeyLe)
  }

  predicate IsLeastKey(keys: set<Key>, k: Key) {
    k in keys && forall x :: x in keys ==> KeyLe(k, x)
  }

  lemma LeastKeyExists(keys: set<Key>)
    requires keys != {}
    ensures exists k :: k in keys && IsLeastKey(keys, k)
  {
    KeyOrder();
    assert IsLeastKey(keys, Least(keys, KeyLe));
  }

  lemma LeastKeyFirst(keys: set<Key>, k: Key)
    requires IsLeastKey(keys, k)
    ensures SortedKeys(keys) == [k] + SortedKeys(keys - {k})
  {
    KeyOrder();
    assert Least(keys, KeyLe) == k;
  }

  ghost function WinnersFor(blocks: set<Block>, keys: set<Key>): set<Block>
    requires keys <= Keys(blocks)
  {
    set k | k in keys :: WinnerOf(blocks, k)
  }

  lemma NextWinner(blocks: set<Block>, done: set<Key>, k: Key)
    requires done + {k} <= Keys(blocks) && k !in done
    ensures WinnerOf(blocks, k) !in WinnersFor(blocks, done)
    ensures WinnersFor(blocks, done + {k}) == WinnersFor(blocks, done) + {WinnerOf(blocks, k)}
    ensures KeyOf(WinnerOf(blocks, k)) == k
  {
  }

  method ApplyWinner(crdts: map<string, Counter>, sends: map<string, Block>, block: Block)
    returns (r: map<string, Counter>, rr: seq<RejectedReceive>, rg: seq<RejectedGenesis>)
    requires Moves(sends, block) ==> |block.account| >= 8
    requires forall h :: h in sends ==> sends[h].kind.Send?
    ensures r == Applied(crdts, sends, block)
    ensures rr == ReceiveRejection(sends, block) && rg == GenesisRejection(block)
    ensures rr == [] <==>
      (block.kind.Receive? ==>
         block.kind.sourceHash in sends && sends[block.kind.sourceHash].kind.destination == block.account)
    ensures rr != [] ==>
      rr == [RejectedReceive(block.account, block.nonce, block.hash, block.kind.sourceHash,
                             if block.kind.sourceHash !in sends then SourceNotFound else DestinationMismatch)]
    ensures rg == if block.kind.Open? && block.nonce != 1
                  then [RejectedGenesis(block.account, block.nonce, block.hash)] else []
  {
    r, rr, rg := crdts, [], [];
    var counter := if block.account in crdts then crdts[block.account] else ZERO_COUNTER;
    match block.kind {
      case Open(initialBalance) =>
        if block.nonce != 1 {
          rg := [RejectedGenesis(block.account, block.nonce, block.hash)];
        } else {
          r := crdts[block.account := Credited(counter, block.account[..8], initialBalance)];
        }
      case Send(_, amount) =>
        r := crdts[block.account := Debited(counter, block.account[..8], amount)];
      case Receive(sourceHash) =>
        if sourceHash !in sends {
          rr := [RejectedReceive(block.account, block.nonce, block.hash, sourceHash, SourceNotFound)];
        } else if sends[sourceHash].kind.destination != block.account {
          rr := [RejectedReceive(block.account, block.nonce, block.hash, sourceHash, DestinationMismatch)];
        } else {
          r := crdts[block.account := Credited(counter, block.account[..8], sends[sourceHash].kind.amount)];
        }
      case Revoke(_) =>
    }
  }

  lemma OrderStep(blocks: set<Block>, keys: seq<Key>, todo: set<Key>, k: Key)
    requires keys + SortedKeys(todo) == SortedKeys(Keys(blocks)) && IsLeastKey(todo, k)
    ensures keys + [k] + SortedKeys(todo - {k}) == SortedKeys(Keys(blocks))
  {
    LeastKeyFirst(todo, k);
  }

  ghost predicate RejectionsSoFar(
    blocks: set<Block>, sends: map<string, Block>, keys: seq<Key>, rr: seq<RejectedReceive>, rg: seq<RejectedGenesis>)
  {
    && rr == ReceiveRejections(sends, WinnersAt(blocks, keys))
    && rg == GenesisRejections(WinnersAt(blocks, keys))
  }

  lemma RejectionsStep(
    blocks: set<Block>, sends: map<string, Block>, keys: seq<Key>, rr: seq<RejectedReceive>, rg: seq<RejectedGenesis>,
    k: Key)
    requires RejectionsSoFar(blocks, sends, keys, rr, rg) && k in Keys(blocks)
    ensures var w := WinnerOf(blocks, k);
      RejectionsSoFar(blocks, sends, keys + [k], rr + ReceiveRejection(sends, w), rg + GenesisRejection(w))
  {
    NextRejections(sends, WinnersAt(blocks, keys), WinnerOf(blocks, k));
    NextWinnerInOrder(blocks, keys, k);
  }

  lemma CountersStep(
    blocks: set<Block>, sends: map<string, Block>, todo: set<Key>, crdts: map<string, Counter>, k: Key)
    requires todo <= Keys(blocks) && k in todo
    requires Moves(sends, WinnerOf(blocks, k)) ==> |WinnerOf(blocks, k).account| >= 8
    requires CountersMatch(crdts, WinnersFor(blocks, Keys(blocks) - todo), sends)
    ensures CountersMatch(
      Applied(crdts, sends, WinnerOf(blocks, k)), WinnersFor(blocks, Keys(blocks) - (todo - {k})), sends)
  {
    var done := Keys(blocks) - todo;
    NextWinner(blocks, done, k);
    AppliedMatches(crdts, WinnersFor(blocks, done), sends, WinnerOf(blocks, k));
    assert Keys(blocks) - (todo - {k}) == done + {k};
  }

  lemma NextWinnerInOrder(blocks: set<Block>, keys: seq<Key>, k: Key)
    requires k in Keys(blocks)
    ensures WinnersAt(blocks, keys + [k]) == WinnersAt(blocks, keys) + [WinnerOf(blocks, k)]
  {
    assert (keys + [k])[..|keys|] == keys;
  }

  lemma NextRejections(sends: map<string, Block>, ws: seq<Block>, w: Block)
    ensures ReceiveRejections(sends, ws + [w]) == ReceiveRejections(sends, ws) + ReceiveRejection(sends, w)
    ensures GenesisRejections(ws + [w]) == GenesisRejections(ws) + GenesisRejection(w)
  {
    assert (ws + [w])[..|ws|] == ws;
  }

  lemma WinnerIsWinner(blocks: set<Block>, k: Key)
    requires k in Keys(blocks)
    ensures WinnerOf(blocks, k) in Winners(blocks)
  {
  }

  /** The counters and rejections of the winners at `keys`, where the keys in `todo` are still to come. */
  ghost predicate AppliedSoFar(
    blocks: set<Block>, sends: map<string, Block>, keys: seq<Key>, todo: set<Key>, crdts: map<string, Counter>,
    rr: seq<RejectedReceive>, rg: seq<RejectedGenesis>)
    requires todo <= Keys(blocks)
  {
    && keys + SortedKeys(todo) == SortedKeys(Keys(blocks))
    && CountersMatch(crdts, WinnersFor(blocks, Keys(blocks) - todo), sends)
    && RejectionsSoFar(blocks, sends, keys, rr, rg)
  }

  lemma AppliedStep(
    blocks: set<Block>, sends: map<string, Block>, keys: seq<Key>, todo: set<Key>, crdts: map<string, Counter>,
    rr: seq<RejectedReceive>, rg: seq<RejectedGenesis>, k: Key)
    requires todo <= Keys(blocks) && AppliedSoFar(blocks, sends, keys, todo, crdts, rr, rg) && IsLeastKey(todo, k)
    requires Moves(sends, WinnerOf(blocks, k)) ==> |WinnerOf(blocks, k).account| >= 8
    ensures var w := WinnerOf(blocks, k);
      AppliedSoFar(blocks, sends, keys + [k], todo - {k}, Applied(crdts, sends, w), rr + ReceiveRejection(sends, w),
                   rg + GenesisRejection(w))
  {
    OrderStep(blocks, keys, todo, k);
    CountersStep(blocks, sends, todo, crdts, k);
    RejectionsStep(blocks, sends, keys, rr, rg, k);
  }

  method ApplyWinners(winners: map<Key, Block>, sends: map<string, Block>, ghost blocks: set<Block>)
    returns (crdts: map<string, Counter>, rr: seq<RejectedReceive>, rg: seq<RejectedGenesis>)
    requires WinnerTable(blocks, winners) && MoversAreNamed(Winners(blocks), sends)
    requires forall h :: h in sends ==> sends[h].kind.Send?
    ensures CountersMatch(crdts, Winners(blocks), sends)
    ensures rr == ReceiveRejections(sends, WinnersInOrder(blocks))
    ensures rg == GenesisRejections(WinnersInOrder(blocks))
  {
    crdts, rr, rg := map[], [], [];
    var todo := winners.Keys;
    ghost var keys: seq<Key> := [];
    NothingMoved(sends);
    assert Keys(blocks) - todo == {};
    while todo != {}
      invariant todo <= Keys(blocks) && AppliedSoFar(blocks, sends, keys, todo, crdts, rr, rg)
      decreases todo
    {
      LeastKeyExists(todo);
      var k :| k in todo && IsLeastKey(todo, k);
      WinnerIsWinner(blocks, k);
      AppliedStep(blocks, sends, keys, todo, crdts, rr, rg, k);
      var r1, r2;
      crdts, r1, r2 := ApplyWinner(crdts, sends, winners[k]);
      rr, rg, keys, todo := rr + r1, rg + r2, keys + [k], todo - {k};
    }
    assert Keys(blocks) - todo == Keys(blocks);
    assert WinnersFor(blocks, Keys(blocks)) == Winners(blocks);
    assert keys + SortedKeys({}) == keys;
  }

  lemma NothingMoved(sends: map<string, Block>)
    ensures CountersMatch(map[], {}, sends)
  {
    forall a: string | |a| >= 8
      ensures CounterMatches(CounterAt(map[], a), {}, sends, a)
    {
      assert BlocksFor({}, a) == {};
    }
  }

  ghost predicate AreValues(crdts: map<string, Counter>, m: map<string, int>) {
    forall a {:trigger ValueOf(crdts[a])} :: a in crdts && a in m ==> m[a] == ValueOf(crdts[a])
  }

  lemma CounterGivesBalance(crdts: map<string, Counter>, winners: set<Block>, sends: map<string, Block>, a: string)
    requires CountersMatch(crdts, winners, sends) && a in crdts && MoversAreNamed(winners, sends)
    ensures ValueOf(crdts[a]) == BalanceOf(winners, sends, a)
  {
    assert |a| >= 8 by {
      assert a in MovedAccounts(winners, sends);
      var w :| w in winners && Moves(sends, w) && w.account == a;
    }
    assert CounterMatches(CounterAt(crdts, a), winners, sends, a);
  }

  method Materialize(crdts: map<string, Counter>) returns (r: Result<map<string, int>, Error>)
    ensures r.Ok? ==>
      r.value.Keys == crdts.Keys && AreValues(crdts, r.value) && forall a :: a in r.value ==> r.value[a] >= 0
    ensures r.Err? ==>
      && r.error.NegativeBalance? && r.error.account in crdts
      && r.error.balance == ValueOf(crdts[r.error.account]) && r.error.balance < 0
  {
    var balances := map[];
    var todo := crdts.Keys;
    while todo != {}
      invariant todo <= crdts.Keys && balances.Keys == crdts.Keys - todo
      invariant AreValues(crdts, balances)
      invariant forall a :: a in balances ==> balances[a] >= 0
      decreases todo
    {
      var account :| account in todo;
      var value := CounterValue(crdts[account]);
      if value < 0 {
        return Err(NegativeBalance(account, value));
      }
      balances := balances[account := value];
      todo := todo - {account};
    }
    r := Ok(balances);
  }

  lemma ValuesAreBalances(
    crdts: map<string, Counter>, winners: set<Block>, sends: map<string, Block>, m: map<string, int>)
    requires CountersMatch(crdts, winners, sends) && MoversAreNamed(winners, sends)
    requires m.Keys == crdts.Keys && AreValues(crdts, m)
    ensures AreBalances(m, winners, sends)
  {
    forall a | a in m
      ensures m[a] == BalanceOf(winners, sends, a)
    {
      CounterGivesBalance(crdts, winners, sends, a);
    }
  }

  /** Whether every winner that moves its account has a name to slice; the code panics otherwise. */
  ghost predicate CanBeSliced(partitionA: seq<Block>, partitionB: seq<Block>) {
    DedupIsHashUnique(partitionA + partitionB);
    var winners := Winners(Elements(Dedup(partitionA + partitionB)));
    WinnersHashUnique(Elements(Dedup(partitionA + partitionB)));
    MoversAreNamed(winners, SendsByHash(winners))
  }

  /** `reconcile_partitions`, for every input on which it does not panic. */
  method ReconcilePartitions(partitionA: seq<Block>, partitionB: seq<Block>) returns (r: Result<Report, Error>)
    requires CanBeSliced(partitionA, partitionB)
    ensures Reconciles(partitionA, partitionB, r)
  {
    DedupIsHashUnique(partitionA + partitionB);
    var all := DedupByHash(partitionA, partitionB);
    ghost var blocks := Elements(all);
    var byKey := GroupByKey(all);
    var winners, conflicts := PickWinners(byKey, blocks);
    var sends := IndexSends(winners);
    WinnersHashUnique(blocks);
    WinnerTableValues(blocks, winners);
    SendTableIsIndex(Winners(blocks), winners, sends);
    var crdts, rejectedReceives, rejectedGenesis := ApplyWinners(winners, sends, blocks);
    var balances := Materialize(crdts);
    match balances {
      case Err(e) =>
        CounterGivesBalance(crdts, Winners(blocks), sends, e.account);
        r := Err(e);
      case Ok(m) =>
        ValuesAreBalances(crdts, Winners(blocks), sends, m);
        r := Ok(Report(m, conflicts, rejectedReceives, rejectedGenesis));
    }
  }
}
