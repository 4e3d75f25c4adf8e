/** What reconciliation reads of a block, and that blocks which agree on it have the same outcomes. */
module ReconciliationEssence {
  import opened Common
  import Sums
  import Ordering
  import opened Blocks
  import opened Flows
  import opened Reconciliation

  /** The effect of a block's type: the amount of an OPEN counts at nonce 1 only, and a revoked credential nowhere. */
  function Effect(b: Block): BlockType {
    match b.kind
    case Open(_) => if b.nonce == 1 then b.kind else Open(0)
    case Revoke(_) => Revoke("")
    case _ => b.kind
  }

  /** What reconciliation reads of a block: hash, account, nonce and effect. */
  function Essence(b: Block): Block {
    Block(b.account, "", Effect(b), 0, b.nonce, 0, b.hash, [])
  }

  ghost function Essences(blocks: set<Block>): set<Block> {
    set b | b in blocks :: Essence(b)
  }

  /** Blocks with one hash have one essence. */
  ghost predicate HashesDecide(blocks: set<Block>) {
    HashUnique(Essences(blocks))
  }

  /** Two sets of blocks with distinct hashes and one essence each. */
  ghost predicate Alike(blocks: set<Block>, e: set<Block>) {
    HashUnique(blocks) && e == Essences(blocks)
  }
  /** Deduplication keeps the essence of every block, when hashes decide it. */
  lemma DedupKeepsEssences(blocks: seq<Block>)
    requires HashesDecide(Elements(blocks))
    ensures Essences(Elements(Dedup(blocks))) == Essences(Elements(blocks))
  {
    DedupIsHashUnique(blocks);
    forall b | b in blocks
      ensures Essence(b) in Essences(Elements(Dedup(blocks)))
    {
      var x :| x in Dedup(blocks) && x.hash == b.hash;
      assert x in Elements(Dedup(blocks));
      assert Essence(x) in Essences(Elements(blocks)) && Essence(b) in Essences(Elements(blocks));
    }
  }

  // ---- Winners ----

  lemma KeysAlike(blocks: set<Block>, e: set<Block>)
    requires Alike(blocks, e)
    ensures Keys(e) == Keys(blocks)
  {
    forall b | b in blocks ensures KeyOf(b) in Keys(e) {
      assert Essence(b) in e && KeyOf(Essence(b)) == KeyOf(b);
    }
  }

  lemma GroupsAlike(blocks: set<Block>, e: set<Block>, k: Key)
    requires Alike(blocks, e)
    ensures Alike(Group(blocks, k), Group(e, k)) && |Group(e, k)| == |Group(blocks, k)|
  {
    SizeAlike(Group(blocks, k), Group(e, k));
  }

  lemma {:induction false} SizeAlike(blocks: set<Block>, e: set<Block>)
    requires Alike(blocks, e)
    ensures |e| == |blocks|
    decreases |blocks|
  {
    if blocks != {} {
      var b :| b in blocks;
      assert Essences(blocks - {b}) == e - {Essence(b)};
      SizeAlike(blocks - {b}, e - {Essence(b)});
    }
  }

  lemma HashesAlike(blocks: set<Block>, e: set<Block>)
    requires Alike(blocks, e)
    ensures Hashes(e) == Hashes(blocks)
  {
    forall b | b in blocks ensures b.hash in Hashes(e) {
      assert Essence(b) in e;
    }
  }

  lemma WinnerAlike(blocks: set<Block>, e: set<Block>, k: Key)
    requires Alike(blocks, e) && k in Keys(blocks)
    ensures k in Keys(e) && WinnerOf(e, k) == Essence(WinnerOf(blocks, k))
  {
    KeysAlike(blocks, e);
    var w := WinnerOf(blocks, k);
    assert w in Group(blocks, k);
    assert HasLeastHash(Group(e, k), Essence(w));
    WinnerIsUnique(e, k, Essence(w));
  }

  lemma WinnersAlike(blocks: set<Block>, e: set<Block>)
    requires Alike(blocks, e)
    ensures Alike(Winners(blocks), Winners(e))
  {
    WinnersHashUnique(blocks);
    KeysAlike(blocks, e);
    forall k | k in Keys(blocks)
      ensures WinnerOf(e, k) == Essence(WinnerOf(blocks, k))
    {
      WinnerAlike(blocks, e, k);
    }
    forall w | w in Winners(blocks)
      ensures Essence(w) in Winners(e)
    {
      var k :| k in Keys(blocks) && w == WinnerOf(blocks, k);
      assert WinnerOf(e, k) == Essence(w);
    }
  }

  // ---- Conflicts ----

  lemma ConflictAlike(blocks: set<Block>, e: set<Block>, k: Key)
    requires Alike(blocks, e) && k in Keys(blocks)
    ensures k in Keys(e) && ConflictAt(e, k) == ConflictAt(blocks, k)
    ensures Contested(e, k) <==> Contested(blocks, k)
  {
    WinnerAlike(blocks, e, k);
    GroupsAlike(blocks, e, k);
    var w := WinnerOf(blocks, k);
    assert w in Group(blocks, k);
    assert Essences(Group(blocks, k) - {w}) == Group(e, k) - {Essence(w)};
    HashesAlike(Group(blocks, k) - {w}, Group(e, k) - {Essence(w)});
  }

  lemma ConflictsAlike(blocks: set<Block>, e: set<Block>)
    requires Alike(blocks, e)
    ensures ConflictsOf(e) == ConflictsOf(blocks)
  {
    KeysAlike(blocks, e);
    forall k | k in Keys(blocks)
      ensures ConflictAt(e, k) == ConflictAt(blocks, k) && (Contested(e, k) <==> Contested(blocks, k))
    {
      ConflictAlike(blocks, e, k);
    }
    forall x ensures x in ConflictsOf(e) <==> x in ConflictsOf(blocks) {
      if x in ConflictsOf(e) {
        var k :| k in Keys(e) && Contested(e, k) && x == ConflictAt(e, k);
        assert x == ConflictAt(blocks, k);
      }
      if x in ConflictsOf(blocks) {
        var k :| k in Keys(blocks) && Contested(blocks, k) && x == ConflictAt(blocks, k);
        assert x == ConflictAt(e, k);
      }
    }
  }

  // ---- Movements ----

  /** Two SEND tables with the same entries, up to essence. */
  ghost predicate TablesAlike(sends: map<string, Block>, es: map<string, Block>) {
    es.Keys == sends.Keys && forall h :: h in sends ==> es[h] == Essence(sends[h])
  }

  lemma SendsAlike(winners: set<Block>, e: set<Block>)
    requires Alike(winners, e)
    ensures HashUnique(e) && TablesAlike(SendsByHash(winners), SendsByHash(e))
  {
    forall h
      ensures h in SendsByHash(e) <==> h in SendsByHash(winners)
      ensures h in SendsByHash(winners) ==> SendsByHash(e)[h] == Essence(SendsByHash(winners)[h])
    {
      if h in SendsByHash(winners) {
        SendIsIndexed(e, Essence(SendsByHash(winners)[h]));
      }
      if h in SendsByHash(e) {
        var b :| b in winners && Essence(b) == SendsByHash(e)[h];
        SendIsIndexed(winners, b);
      }
    }
  }

  /** A block and its essence move the same. */
  lemma MovementAlike(sends: map<string, Block>, es: map<string, Block>, b: Block)
    requires TablesAlike(sends, es)
    ensures Accepted(es, Essence(b)) <==> Accepted(sends, b)
    ensures Moves(es, Essence(b)) <==> Moves(sends, b)
    ensures Credit(es, Essence(b)) == Credit(sends, b) && SendAmount(Essence(b)) == SendAmount(b)
    ensures ReceiveRejection(es, Essence(b)) == ReceiveRejection(sends, b)
    ensures GenesisRejection(Essence(b)) == GenesisRejection(b)
  {
  }

  lemma MovedAlike(winners: set<Block>, e: set<Block>, sends: map<string, Block>, es: map<string, Block>)
    requires Alike(winners, e) && TablesAlike(sends, es)
    ensures MovedAccounts(e, es) == MovedAccounts(winners, sends)
  {
    forall b | b in winners
      ensures Essence(b) in e && (Moves(es, Essence(b)) <==> Moves(sends, b))
    {
      MovementAlike(sends, es, b);
    }
    forall a | a in MovedAccounts(winners, sends)
      ensures a in MovedAccounts(e, es)
    {
      var w :| w in winners && Moves(sends, w) && w.account == a;
      assert Moves(es, Essence(w));
    }
  }

  lemma SumsAlike(winners: set<Block>, e: set<Block>, f: Block -> int, g: Block -> int)
    requires Alike(winners, e) && forall b :: b in winners ==> f(b) == g(Essence(b))
    ensures Sums.SumOver(e, g) == Sums.SumOver(winners, f)
  {
    Sums.SumImage(winners, Essence, e, f, g);
  }

  lemma BalanceAlike(
    winners: set<Block>, e: set<Block>, sends: map<string, Block>, es: map<string, Block>, a: string)
    requires Alike(winners, e) && TablesAlike(sends, es)
    ensures BalanceOf(e, es, a) == BalanceOf(winners, sends, a)
  {
    var mine, theirs := BlocksFor(winners, a), BlocksFor(e, a);
    assert Essences(mine) == theirs;
    forall b | b in mine
      ensures Credits(sends)(b) == Credits(es)(Essence(b)) && SendAmount(b) == SendAmount(Essence(b))
    {
      MovementAlike(sends, es, b);
    }
    SumsAlike(mine, theirs, Credits(sends), Credits(es));
    SumsAlike(mine, theirs, SendAmount, SendAmount);
  }

  lemma {:induction false} RejectionsAlike(
    blocks: set<Block>, e: set<Block>, sends: map<string, Block>, es: map<string, Block>, keys: seq<Key>)
    requires Alike(blocks, e) && TablesAlike(sends, es) && forall k :: k in keys ==> k in Keys(blocks)
    ensures ReceiveRejections(es, WinnersAt(e, keys)) == ReceiveRejections(sends, WinnersAt(blocks, keys))
    ensures GenesisRejections(WinnersAt(e, keys)) == GenesisRejections(WinnersAt(blocks, keys))
  {
    if keys != [] {
      var init, k := keys[..|keys| - 1], keys[|keys| - 1];
      assert keys == init + [k];
      RejectionsAlike(blocks, e, sends, es, init);
      WinnerAlike(blocks, e, k);
      NextWinnerInOrder(blocks, init, k);
      NextWinnerInOrder(e, init, k);
      var w := WinnerOf(blocks, k);
      MovementAlike(sends, es, w);
    }
  }

  // ---- Outcomes ----

  lemma BalancesAlike(
    m: map<string, int>, winners: set<Block>, e: set<Block>, sends: map<string, Block>, es: map<string, Block>)
    requires Alike(winners, e) && TablesAlike(sends, es) && AreBalances(m, winners, sends)
    ensures AreBalances(m, e, es)
  {
    MovedAlike(winners, e, sends, es);
    forall a | a in m
      ensures m[a] == BalanceOf(e, es, a)
    {
      BalanceAlike(winners, e, sends, es, a);
      assert m[a] == BalanceOf(winners, sends, a);
    }
  }

  /** An outcome for some blocks is an outcome for their essences. */
  lemma OutcomeAlike(blocks: set<Block>, e: set<Block>, r: Result<Report, Error>)
    requires Alike(blocks, e) && Describes(blocks, r)
    ensures HashUnique(e) && Describes(e, r)
  {
    WinnersAlike(blocks, e);
    WinnersHashUnique(blocks);
    var w, we := Winners(blocks), Winners(e);
    SendsAlike(w, we);
    var sends, es := SendsByHash(w), SendsByHash(we);
    match r {
      case Err(error) =>
        MovedAlike(w, we, sends, es);
        BalanceAlike(w, we, sends, es, error.account);
      case Ok(report) =>
        ReportAlike(blocks, e, sends, es, report);
        BalancesAlike(report.balances, w, we, sends, es);
    }
  }

  lemma ReportAlike(
    blocks: set<Block>, e: set<Block>, sends: map<string, Block>, es: map<string, Block>, report: Report)
    requires Alike(blocks, e) && TablesAlike(sends, es)
    ensures ConflictsOf(e) == ConflictsOf(blocks)
    ensures ReceiveRejections(es, WinnersInOrder(e)) == ReceiveRejections(sends, WinnersInOrder(blocks))
    ensures GenesisRejections(WinnersInOrder(e)) == GenesisRejections(WinnersInOrder(blocks))
  {
    ConflictsAlike(blocks, e);
    KeysAlike(blocks, e);
    KeyOrder();
    Ordering.AscendingIsSorted(Keys(blocks), KeyLe);
    RejectionsAlike(blocks, e, sends, es, SortedKeys(Keys(blocks)));
  }
}
