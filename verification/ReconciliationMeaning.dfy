/** A report of reconciliation read off the two lists of blocks: which blocks win, which SENDs they cite, and the
    order of hashes say all there is to say about balances, conflicts and rejections. */
module ReconciliationMeaning {
  import opened Common
  import opened Sums
  import opened Ordering
  import opened Blocks
  import opened Flows
  import PNCounter
  import opened Reconciliation

  /** No block listed earlier has this block's hash. */
  ghost predicate FirstOfItsHash(all: seq<Block>, b: Block) {
    exists i :: 0 <= i < |all| && all[i] == b && forall j :: 0 <= j < i ==> all[j].hash != b.hash
  }

  predicate SamePlace(x: Block, y: Block) {
    x.account == y.account && x.nonce == y.nonce
  }

  /** The block of least hash for its account and nonce. */
  ghost predicate Wins(all: seq<Block>, w: Block) {
    FirstOfItsHash(all, w) &&
    forall x :: FirstOfItsHash(all, x) && SamePlace(x, w) ==> StringLe(w.hash, x.hash)
  }

  ghost predicate WinningSend(all: seq<Block>, h: string, s: Block) {
    Wins(all, s) && s.kind.Send? && s.hash == h
  }

  ghost predicate HasWinningSend(all: seq<Block>, h: string) {
    exists s :: WinningSend(all, h, s)
  }

  ghost predicate HasWinningSendTo(all: seq<Block>, h: string, destination: string) {
    exists s :: WinningSend(all, h, s) && s.kind.destination == destination
  }

  // ---- Winners ----

  lemma FirstGrows(init: seq<Block>, x: Block, b: Block)
    ensures FirstOfItsHash(init + [x], b) <==>
            FirstOfItsHash(init, b) || (b == x && forall y :: y in init ==> y.hash != x.hash)
  {
    var all := init + [x];
    if FirstOfItsHash(init, b) {
      var i :| 0 <= i < |init| && init[i] == b && forall j :: 0 <= j < i ==> init[j].hash != b.hash;
      assert all[i] == b && forall j :: 0 <= j < i ==> all[j].hash != b.hash;
    }
    if FirstOfItsHash(all, b) {
      var i :| 0 <= i < |all| && all[i] == b && forall j :: 0 <= j < i ==> all[j].hash != b.hash;
      forall j | 0 <= j < |init| && j < i ensures init[j].hash != b.hash {
        assert all[j] == init[j];
      }
      assert i < |init| ==> init[i] == b;
    }
    if b == x && forall y :: y in init ==> y.hash != x.hash {
      assert all[|init|] == b && forall j :: 0 <= j < |init| ==> all[j] == init[j];
    }
  }

  lemma {:induction false} KeptIsFirst(all: seq<Block>, b: Block)
    ensures b in Dedup(all) <==> FirstOfItsHash(all, b)
  {
    if all != [] {
      var init, x := all[..|all| - 1], all[|all| - 1];
      assert all == init + [x];
      KeptIsFirst(init, b);
      SeenBefore(init, x.hash);
      FirstGrows(init, x, b);
      assert HasHash(Dedup(init), x.hash) <==> exists y :: y in init && y.hash == x.hash;
    }
  }

  lemma SeenBefore(blocks: seq<Block>, h: string)
    ensures HasHash(Dedup(blocks), h) <==> exists y :: y in blocks && y.hash == h
  {
    DedupIsHashUnique(blocks);
    if HasHash(Dedup(blocks), h) {
      var x :| x in Dedup(blocks) && x.hash == h;
      assert x in Elements(Dedup(blocks));
      assert x in blocks;
    }
  }

  ghost function Kept(all: seq<Block>): (blocks: set<Block>)
    ensures HashUnique(blocks)
  {
    DedupIsHashUnique(all);
    Elements(Dedup(all))
  }

  lemma WinnersAreTheLeast(all: seq<Block>, w: Block)
    ensures Wins(all, w) <==> w in Winners(Kept(all))
    ensures Wins(all, w) ==> KeyOf(w) in Keys(Kept(all)) && w == WinnerOf(Kept(all), KeyOf(w))
  {
    var blocks := Kept(all);
    forall x ensures x in blocks <==> FirstOfItsHash(all, x) {
      KeptIsFirst(all, x);
    }
    if Wins(all, w) {
      assert HasLeastHash(Group(blocks, KeyOf(w)), w);
      WinnerIsUnique(blocks, KeyOf(w), w);
      WinnerIsWinner(blocks, KeyOf(w));
    }
    if w in Winners(blocks) {
      var k :| k in Keys(blocks) && w == WinnerOf(blocks, k);
      assert HasLeastHash(Group(blocks, k), w);
      forall x | FirstOfItsHash(all, x) && SamePlace(x, w) ensures StringLe(w.hash, x.hash) {
        assert x in Group(blocks, k);
      }
    }
  }

  /** The table of SENDs that RECEIVEs are checked against. */
  ghost function Table(all: seq<Block>): map<string, Block> {
    WinnersHashUnique(Kept(all));
    SendsByHash(Winners(Kept(all)))
  }

  lemma TableHoldsWinningSends(all: seq<Block>, h: string)
    ensures h in Table(all) <==> HasWinningSend(all, h)
    ensures forall s :: WinningSend(all, h, s) ==> h in Table(all) && Table(all)[h] == s
    ensures h in Table(all) ==> WinningSend(all, h, Table(all)[h])
  {
    var winners := Winners(Kept(all));
    WinnersHashUnique(Kept(all));
    forall s | WinningSend(all, h, s) ensures h in Table(all) && Table(all)[h] == s {
      WinnersAreTheLeast(all, s);
      SendIsIndexed(winners, s);
    }
    if h in Table(all) {
      WinnersAreTheLeast(all, Table(all)[h]);
      assert WinningSend(all, h, Table(all)[h]);
    }
  }

  lemma AcceptedMeansBacked(all: seq<Block>, w: Block)
    ensures Accepted(Table(all), w) <==> w.kind.Receive? && HasWinningSendTo(all, w.kind.sourceHash, w.account)
  {
    if w.kind.Receive? {
      TableHoldsWinningSends(all, w.kind.sourceHash);
    }
  }

  // ---- Rejections ----

  /** The entry for a RECEIVE of no winning SEND to its account. */
  ghost predicate Reports(all: seq<Block>, w: Block, e: RejectedReceive) {
    && w.kind.Receive? && !HasWinningSendTo(all, w.kind.sourceHash, w.account)
    && e.account == w.account && e.nonce == w.nonce && e.receiveHash == w.hash && e.sourceHash == w.kind.sourceHash
    && e.reason == if HasWinningSend(all, w.kind.sourceHash) then DestinationMismatch else SourceNotFound
  }

  predicate Earlier(account: string, nonce: nat, account': string, nonce': nat) {
    if account == account' then nonce < nonce' else StringLe(account, account')
  }

  ghost predicate ReceivesInOrder(es: seq<RejectedReceive>) {
    forall i, j :: 0 <= i < j < |es| ==> Earlier(es[i].account, es[i].nonce, es[j].account, es[j].nonce)
  }

  ghost predicate GenesesInOrder(es: seq<RejectedGenesis>) {
    forall i, j :: 0 <= i < j < |es| ==> Earlier(es[i].account, es[i].nonce, es[j].account, es[j].nonce)
  }

  ghost predicate BlocksInOrder(ws: seq<Block>) {
    forall i, j :: 0 <= i < j < |ws| ==> Earlier(ws[i].account, ws[i].nonce, ws[j].account, ws[j].nonce)
  }

  lemma {:induction false} WinnersAtAre(blocks: set<Block>, keys: seq<Key>)
    requires forall k :: k in keys ==> k in Keys(blocks)
    ensures |WinnersAt(blocks, keys)| == |keys|
    ensures forall i :: 0 <= i < |keys| ==> WinnersAt(blocks, keys)[i] == WinnerOf(blocks, keys[i])
  {
    if keys != [] {
      WinnersAtAre(blocks, keys[..|keys| - 1]);
    }
  }

  lemma WinnersComeInOrder(all: seq<Block>)
    ensures BlocksInOrder(WinnersInOrder(Kept(all)))
    ensures forall w :: w in WinnersInOrder(Kept(all)) <==> Wins(all, w)
  {
    var blocks := Kept(all);
    var keys := SortedKeys(Keys(blocks));
    KeyOrder();
    AscendingIsSorted(Keys(blocks), KeyLe);
    WinnersAtAre(blocks, keys);
    var ws := WinnersInOrder(blocks);
    forall i | 0 <= i < |ws| ensures KeyOf(ws[i]) == keys[i] && Wins(all, ws[i]) {
      assert ws[i] in Group(blocks, keys[i]);
      assert keys[i] in keys;
      WinnerIsWinner(blocks, keys[i]);
      WinnersAreTheLeast(all, ws[i]);
    }
    forall w | Wins(all, w) ensures w in ws {
      WinnersAreTheLeast(all, w);
      var i :| 0 <= i < |keys| && keys[i] == KeyOf(w);
      assert ws[i] == w;
    }
    forall i, j | 0 <= i < j < |ws| ensures Earlier(ws[i].account, ws[i].nonce, ws[j].account, ws[j].nonce) {
      assert KeyLe(keys[i], keys[j]) && keys[i] != keys[j];
    }
  }

  lemma OneReceive(all: seq<Block>, w: Block, e: RejectedReceive)
    ensures e in ReceiveRejection(Table(all), w) <==> Reports(all, w, e)
    ensures |ReceiveRejection(Table(all), w)| <= 1
  {
    AcceptedMeansBacked(all, w);
    if w.kind.Receive? {
      TableHoldsWinningSends(all, w.kind.sourceHash);
    }
  }

  lemma {:induction false} ReceivesListed(all: seq<Block>, ws: seq<Block>)
    requires BlocksInOrder(ws)
    ensures forall e :: e in ReceiveRejections(Table(all), ws) <==> exists w :: w in ws && Reports(all, w, e)
    ensures ReceivesInOrder(ReceiveRejections(Table(all), ws))
  {
    if ws != [] {
      var init, last := ws[..|ws| - 1], ws[|ws| - 1];
      assert ws == init + [last];
      ReceivesListed(all, init);
      var es, e1 := ReceiveRejections(Table(all), init), ReceiveRejection(Table(all), last);
      forall e ensures e in es + e1 <==> exists w :: w in ws && Reports(all, w, e) {
        OneReceive(all, last, e);
      }
      forall i | 0 <= i < |es| ensures e1 != [] ==> Earlier(es[i].account, es[i].nonce, e1[0].account, e1[0].nonce) {
        assert es[i] in es;
        var w :| w in init && Reports(all, w, es[i]);
        assert Earlier(w.account, w.nonce, last.account, last.nonce);
      }
      OneReceive(all, last, RejectedReceive("", 0, "", "", SourceNotFound));
    }
  }

  lemma {:induction false} GenesesListed(ws: seq<Block>)
    requires BlocksInOrder(ws)
    ensures forall e :: e in GenesisRejections(ws) <==> exists w :: w in ws && ReportsGenesis(w, e)
    ensures GenesesInOrder(GenesisRejections(ws))
  {
    if ws != [] {
      var init, last := ws[..|ws| - 1], ws[|ws| - 1];
      assert ws == init + [last];
      GenesesListed(init);
      var es, e1 := GenesisRejections(init), GenesisRejection(last);
      forall i | 0 <= i < |es| ensures e1 != [] ==> Earlier(es[i].account, es[i].nonce, e1[0].account, e1[0].nonce) {
        assert es[i] in es;
        var w :| w in init && ReportsGenesis(w, es[i]);
        assert Earlier(w.account, w.nonce, last.account, last.nonce);
      }
      forall e ensures e in es + e1 <==> exists w :: w in ws && ReportsGenesis(w, e) {
        assert e in e1 <==> ReportsGenesis(last, e);
      }
    }
  }

  /** The entry for an OPEN at another nonce than 1. */
  predicate ReportsGenesis(w: Block, e: RejectedGenesis) {
    w.kind.Open? && w.nonce != 1 && e == RejectedGenesis(w.account, w.nonce, w.hash)
  }

  /** The reported RECEIVEs are exactly the winning ones that cite no winning SEND to their account, each once and by
      ascending account and nonce; the reason says whether the cited SEND is missing or addressed elsewhere. */
  lemma RejectedReceivesAreExact(partitionA: seq<Block>, partitionB: seq<Block>, r: Result<Report, Error>)
    requires Reconciles(partitionA, partitionB, r) && r.Ok?
    ensures forall e :: e in r.value.rejectedReceives <==>
                        exists w :: Wins(partitionA + partitionB, w) && Reports(partitionA + partitionB, w, e)
    ensures ReceivesInOrder(r.value.rejectedReceives)
  {
    var all := partitionA + partitionB;
    WinnersComeInOrder(all);
    ReceivesListed(all, WinnersInOrder(Kept(all)));
  }

  /** The reported OPENs are exactly the winning ones at another nonce than 1, each once and in order. */
  lemma RejectedGenesesAreExact(partitionA: seq<Block>, partitionB: seq<Block>, r: Result<Report, Error>)
    requires Reconciles(partitionA, partitionB, r) && r.Ok?
    ensures forall e :: e in r.value.rejectedGenesis <==>
                        exists w :: Wins(partitionA + partitionB, w) && ReportsGenesis(w, e)
    ensures GenesesInOrder(r.value.rejectedGenesis)
  {
    var all := partitionA + partitionB;
    WinnersComeInOrder(all);
    GenesesListed(WinnersInOrder(Kept(all)));
  }

  // ---- Conflicts ----

  /** Another block of the winner's account and nonce. */
  ghost predicate LosesTo(all: seq<Block>, x: Block, w: Block) {
    FirstOfItsHash(all, x) && SamePlace(x, w) && x != w
  }

  /** The hashes of all of them, ascending. */
  ghost predicate ListsLosers(all: seq<Block>, w: Block, hs: seq<string>) {
    SortedBy(hs, StringLe) && forall h :: h in hs <==> exists x :: LosesTo(all, x, w) && x.hash == h
  }

  /** The entry for the place of a winner that other blocks also claim: the winner's hash and all other hashes. */
  ghost predicate Settles(all: seq<Block>, w: Block, c: ResolvedConflict) {
    && (exists x :: LosesTo(all, x, w))
    && c.account == w.account && c.nonce == w.nonce && c.winnerHash == w.hash
    && ListsLosers(all, w, c.loserHashes)
  }

  lemma LosersAre(all: seq<Block>, w: Block)
    requires Wins(all, w)
    ensures KeyOf(w) in Keys(Kept(all))
    ensures forall x :: x in Group(Kept(all), KeyOf(w)) - {w} <==> LosesTo(all, x, w)
    ensures Contested(Kept(all), KeyOf(w)) <==> exists x :: LosesTo(all, x, w)
  {
    var group := Group(Kept(all), KeyOf(w));
    WinnersAreTheLeast(all, w);
    forall x ensures x in group <==> FirstOfItsHash(all, x) && SamePlace(x, w) {
      KeptIsFirst(all, x);
    }
    assert |group - {w}| == |group| - 1;
    if |group| > 1 {
      var x :| x in group - {w};
      assert LosesTo(all, x, w);
    }
  }

  lemma LosersAreListed(all: seq<Block>, w: Block, losers: set<Block>, hs: seq<string>)
    requires forall x :: x in losers <==> LosesTo(all, x, w)
    ensures ListsLosers(all, w, hs) <==> hs == SortedHashes(losers)
  {
    StringOrder();
    forall h ensures h in Hashes(losers) <==> exists x :: LosesTo(all, x, w) && x.hash == h {
    }
    AscendingIsSorted(Hashes(losers), StringLe);
    if ListsLosers(all, w, hs) {
      SortedIsUnique(hs, Hashes(losers), StringLe);
    }
  }

  lemma ConflictOfWinner(all: seq<Block>, w: Block, c: ResolvedConflict)
    requires Wins(all, w)
    ensures KeyOf(w) in Keys(Kept(all))
    ensures Contested(Kept(all), KeyOf(w)) && c == ConflictAt(Kept(all), KeyOf(w)) <==> Settles(all, w, c)
  {
    LosersAre(all, w);
    WinnersAreTheLeast(all, w);
    LosersAreListed(all, w, Group(Kept(all), KeyOf(w)) - {w}, c.loserHashes);
  }

  /** The reported conflicts are exactly the places that different blocks claim, each once: the block of least hash wins
      and the others' hashes are listed in order. */
  lemma ConflictsAreExact(partitionA: seq<Block>, partitionB: seq<Block>, r: Result<Report, Error>)
    requires Reconciles(partitionA, partitionB, r) && r.Ok?
    ensures forall c :: c in r.value.conflicts <==>
                        exists w :: Wins(partitionA + partitionB, w) && Settles(partitionA + partitionB, w, c)
    ensures Distinct(r.value.conflicts)
  {
    var all := partitionA + partitionB;
    var blocks := Kept(all);
    forall c ensures c in ConflictsOf(blocks) <==> exists w :: Wins(all, w) && Settles(all, w, c) {
      if c in ConflictsOf(blocks) {
        var k :| k in Keys(blocks) && Contested(blocks, k) && c == ConflictAt(blocks, k);
        var w := WinnerOf(blocks, k);
        WinnerIsWinner(blocks, k);
        WinnersAreTheLeast(all, w);
        assert w in Group(blocks, k);
        ConflictOfWinner(all, w, c);
      }
      if w :| Wins(all, w) && Settles(all, w, c) {
        ConflictOfWinner(all, w, c);
      }
    }
  }

  // ---- Balances ----

  /** What a winning block adds to its account: an OPEN at nonce 1 its balance, a RECEIVE what the winning SEND that it
      cites sent to its account. */
  ghost function Gain(all: seq<Block>, w: Block): int {
    match w.kind
    case Open(initial) => if w.nonce == 1 then initial else 0
    case Receive(h) =>
      if HasWinningSendTo(all, h, w.account) then
        var s :| WinningSend(all, h, s) && s.kind.destination == w.account;
        s.kind.amount
      else
        0
    case _ => 0
  }

  ghost function Gains(all: seq<Block>): Block -> int {
    w => Gain(all, w)
  }

  function Loss(w: Block): int {
    match w.kind
    case Send(_, amount) => amount
    case _ => 0
  }

  ghost function WinnersNamed(all: seq<Block>, a: string): set<Block> {
    set w | w in all && Wins(all, w) && w.account == a
  }

  /** Gains less losses, each cut off at the largest `u64` and the difference kept in the range of `i64`. */
  ghost function Holding(all: seq<Block>, a: string): int {
    var gained := Min(SumOver(WinnersNamed(all, a), Gains(all)), U64_MAX);
    var lost := Min(SumOver(WinnersNamed(all, a), Loss), U64_MAX);
    if gained - lost < -0x8000_0000_0000_0000 then -0x8000_0000_0000_0000
    else Min(gained - lost, 0x7FFF_FFFF_FFFF_FFFF)
  }

  lemma GainIsCredit(all: seq<Block>, w: Block)
    ensures Gain(all, w) == Credit(Table(all), w) && Loss(w) == SendAmount(w)
  {
    AcceptedMeansBacked(all, w);
    if w.kind.Receive? {
      TableHoldsWinningSends(all, w.kind.sourceHash);
    }
  }

  lemma HoldingIsBalance(all: seq<Block>, a: string)
    ensures Holding(all, a) == BalanceOf(Winners(Kept(all)), Table(all), a)
  {
    var ws := WinnersNamed(all, a);
    forall w ensures w in ws <==> w in BlocksFor(Winners(Kept(all)), a) {
      WinnersAreTheLeast(all, w);
      if Wins(all, w) {
        assert w in all;
      }
    }
    assert ws == BlocksFor(Winners(Kept(all)), a);
    forall w | w in ws ensures Gains(all)(w) == Credits(Table(all))(w) && Loss(w) == SendAmount(w) {
      GainIsCredit(all, w);
    }
    SumCong(ws, Gains(all), Credits(Table(all)));
    SumCong(ws, Loss, SendAmount);
    SumNonNegative(ws, Credits(Table(all)));
    SumNonNegative(ws, SendAmount);
  }

  /** A winning block that reaches its account's balance. */
  ghost predicate Affects(all: seq<Block>, w: Block) {
    match w.kind
    case Open(_) => w.nonce == 1
    case Send(_, _) => true
    case Receive(h) => HasWinningSendTo(all, h, w.account)
    case Revoke(_) => false
  }

  lemma AffectedAreMoved(all: seq<Block>, a: string)
    ensures a in MovedAccounts(Winners(Kept(all)), Table(all)) <==>
            exists w :: Wins(all, w) && Affects(all, w) && w.account == a
  {
    forall w ensures Moves(Table(all), w) <==> Affects(all, w) {
      AcceptedMeansBacked(all, w);
    }
    forall w ensures w in Winners(Kept(all)) <==> Wins(all, w) {
      WinnersAreTheLeast(all, w);
    }
    if w :| Wins(all, w) && Affects(all, w) && w.account == a {
      assert Moves(Table(all), w);
    }
  }

  /** The balances, when there are any, are the holdings of the accounts that a winning block affects, none negative; an
      error names such an account whose holding is negative, and that. */
  lemma BalancesAreExact(partitionA: seq<Block>, partitionB: seq<Block>, r: Result<Report, Error>)
    requires Reconciles(partitionA, partitionB, r)
    ensures var all := partitionA + partitionB;
      match r
      case Ok(report) =>
        && (forall a :: a in report.balances <==> exists w :: Wins(all, w) && Affects(all, w) && w.account == a)
        && (forall a :: a in report.balances ==> report.balances[a] == Holding(all, a) >= 0)
      case Err(e) =>
        && e.NegativeBalance? && e.balance == Holding(all, e.account) < 0
        && exists w :: Wins(all, w) && Affects(all, w) && w.account == e.account
  {
    var all := partitionA + partitionB;
    match r {
      case Ok(report) =>
        forall a
          ensures a in report.balances <==> exists w :: Wins(all, w) && Affects(all, w) && w.account == a
          ensures a in report.balances ==> report.balances[a] == Holding(all, a) >= 0
        {
          AffectedAreMoved(all, a);
          HoldingIsBalance(all, a);
        }
      case Err(e) =>
        AffectedAreMoved(all, e.account);
        HoldingIsBalance(all, e.account);
    }
  }
}
