/** What reconciliation guarantees: conflicts are settled by hash, and value is conserved. */
module ReconciliationLaws {
  import opened Common
  import opened Sums
  import Ordering
  import opened Blocks
  import opened Flows
  import PNCounter
  import opened Reconciliation

  /** When no two different blocks share a hash, deduplication loses nothing. */
  lemma DedupKeepsAll(blocks: seq<Block>)
    requires HashUnique(Elements(blocks))
    ensures Elements(Dedup(blocks)) == Elements(blocks)
  {
    DedupIsHashUnique(blocks);
    forall b | b in blocks
      ensures b in Dedup(blocks)
    {
      var x :| x in Dedup(blocks) && x.hash == b.hash;
      assert x in Elements(Dedup(blocks));
      assert x in Elements(blocks) && b in Elements(blocks);
    }
  }

  /** The winner of a conflict has the least hash of its group, and the losers are the rest. */
  lemma ConflictsAreSettledByHash(blocks: set<Block>, k: Key)
    requires HashUnique(blocks) && k in Keys(blocks)
    ensures ConflictAt(blocks, k).winnerHash in Hashes(Group(blocks, k))
    ensures forall h :: h in Hashes(Group(blocks, k)) ==> Ordering.StringLe(ConflictAt(blocks, k).winnerHash, h)
    ensures forall h :: h in ConflictAt(blocks, k).loserHashes <==>
                        h in Hashes(Group(blocks, k)) && h != ConflictAt(blocks, k).winnerHash
    ensures Ordering.SortedBy(ConflictAt(blocks, k).loserHashes, Ordering.StringLe)
  {
    Ordering.StringOrder();
    var w := WinnerOf(blocks, k);
    Ordering.AscendingIsSorted(Hashes(Group(blocks, k) - {w}), Ordering.StringLe);
    assert Hashes(Group(blocks, k) - {w}) == Hashes(Group(blocks, k)) - {w.hash};
  }

  // ---- Conservation ----

  /** An account's credits, debits and balance fit their integer types, or its credits equal its debits. */
  predicate Fits(credits: int, debits: int) {
    credits == debits ||
    (credits <= U64_MAX && debits <= U64_MAX && -PNCounter.I64_MAX - 1 <= credits - debits <= PNCounter.I64_MAX)
  }

  /** No account's balance is changed by a limit of an integer type. */
  ghost predicate NoSaturation(winners: set<Block>, sends: map<string, Block>) {
    forall a {:trigger BlocksFor(winners, a)} ::
      Fits(SumOver(BlocksFor(winners, a), Credits(sends)), SumOver(BlocksFor(winners, a), SendAmount))
  }

  ghost predicate CountersStayInRange(blocks: set<Block>)
    requires HashUnique(blocks)
  {
    WinnersHashUnique(blocks);
    NoSaturation(Winners(blocks), SendsByHash(Winners(blocks)))
  }

  lemma NetIsCreditsMinusDebits(blocks: set<Block>, sends: map<string, Block>)
    ensures SumOver(blocks, Net(sends)) == SumOver(blocks, Credits(sends)) - SumOver(blocks, SendAmount)
    ensures SumOver(blocks, Credits(sends)) >= 0 && SumOver(blocks, SendAmount) >= 0
  {
    SumPlus(blocks, Net(sends), SendAmount, Credits(sends));
    SumNonNegative(blocks, Credits(sends));
    SumNonNegative(blocks, SendAmount);
  }

  /** With saturating counters a balance is credits minus debits exactly when these fit. */
  lemma BalanceIsExactIff(winners: set<Block>, sends: map<string, Block>, a: string)
    ensures BalanceOf(winners, sends, a) == SumOver(BlocksFor(winners, a), Net(sends)) <==>
            Fits(SumOver(BlocksFor(winners, a), Credits(sends)), SumOver(BlocksFor(winners, a), SendAmount))
  {
    NetIsCreditsMinusDebits(BlocksFor(winners, a), sends);
  }

  lemma UnmovedIsZero(winners: set<Block>, sends: map<string, Block>, a: string)
    requires a !in MovedAccounts(winners, sends)
    ensures SumOver(BlocksFor(winners, a), Net(sends)) == 0
  {
    forall w | w in BlocksFor(winners, a)
      ensures Net(sends)(w) == 0
    {
      assert Moves(sends, w) ==> w.account in MovedAccounts(winners, sends);
    }
    SumZero(BlocksFor(winners, a), Net(sends));
  }

  ghost function BalanceAt(m: map<string, int>): string -> int {
    a => if a in m then m[a] else 0
  }

  lemma BalancesAreFlows(winners: set<Block>, sends: map<string, Block>, m: map<string, int>, a: string)
    requires AreBalances(m, winners, sends) && NoSaturation(winners, sends)
    ensures BalanceAt(m)(a) == SumOver(BlocksFor(winners, a), Net(sends))
  {
    if a in m {
      assert m[a] == BalanceOf(winners, sends, a);
      BalanceIsExactIff(winners, sends, a);
    } else {
      UnmovedIsZero(winners, sends, a);
    }
  }

  ghost function AccountsOf(blocks: set<Block>): set<string> {
    set b | b in blocks :: b.account
  }

  /** Accounts that no winner moved add nothing. */
  lemma SumOverReported(winners: set<Block>, sends: map<string, Block>, m: map<string, int>)
    requires AreBalances(m, winners, sends)
    ensures SumOver(m.Keys, BalanceAt(m)) == SumOver(AccountsOf(winners), BalanceAt(m))
  {
    var accounts := AccountsOf(winners);
    assert m.Keys <= accounts;
    SumUnion(m.Keys, accounts - m.Keys, BalanceAt(m));
    SumZero(accounts - m.Keys, BalanceAt(m));
    assert accounts == m.Keys + (accounts - m.Keys);
  }

  /** The balances of a report together with the winning SENDs nobody received. */
  ghost function HeldOrOutstanding(blocks: set<Block>, m: map<string, int>): int
    requires HashUnique(blocks)
  {
    WinnersHashUnique(blocks);
    SumOver(m.Keys, BalanceAt(m)) + SumOver(Unreceived(Winners(blocks)), SendAmount)
  }

  /** Conservation for arbitrary partitions, away from the limits of the counters: the balances sum to the winning
      Opens at nonce 1, minus the winning SENDs, plus the amounts of the accepted RECEIVEs; and the balances and the
      SENDs not yet received sum to at least the winning Opens, and to exactly them when and only when no winning SEND
      of a positive amount is received twice. */
  lemma ReconciliationConserves(blocks: set<Block>, r: Result<Report, Error>)
    requires HashUnique(blocks) && Describes(blocks, r) && r.Ok?
    requires CountersStayInRange(blocks)
    ensures HashUnique(Winners(blocks))
    ensures var w := Winners(blocks);
      SumOver(r.value.balances.Keys, BalanceAt(r.value.balances)) ==
      SumOver(w, GenesisAmount) - SumOver(w, SendAmount) + SumOver(w, ReceivedAmounts(SendsByHash(w)))
    ensures HeldOrOutstanding(blocks, r.value.balances) >= SumOver(Winners(blocks), GenesisAmount)
    ensures HeldOrOutstanding(blocks, r.value.balances) == SumOver(Winners(blocks), GenesisAmount) <==>
            NoDoubleCredit(Winners(blocks))
  {
    WinnersHashUnique(blocks);
    BalancesConserve(Winners(blocks), SendsByHash(Winners(blocks)), r.value.balances);
    ReceiptsMatchSends(Winners(blocks));
  }

  lemma BalancesConserve(w: set<Block>, sends: map<string, Block>, m: map<string, int>)
    requires HashUnique(w) && sends == SendsByHash(w) && AreBalances(m, w, sends) && NoSaturation(w, sends)
    ensures SumOver(m.Keys, BalanceAt(m)) ==
            SumOver(w, GenesisAmount) - SumOver(w, SendAmount) + SumOver(w, ReceivedAmounts(sends))
  {
    forall a | a in AccountsOf(w)
      ensures BalanceAt(m)(a) == SumOver(BlocksFor(w, a), Net(sends))
    {
      BalancesAreFlows(w, sends, m, a);
    }
    FlowsAddUp(w, AccountsOf(w), BalanceAt(m));
    SumOverReported(w, sends, m);
  }

  /** Blocks that stand alone at their account and nonce all win. */
  lemma UncontestedAllWin(blocks: set<Block>)
    requires forall x, y :: x in blocks && y in blocks && KeyOf(x) == KeyOf(y) ==> x == y
    ensures Winners(blocks) == blocks && ConflictsOf(blocks) == {}
  {
    forall b | b in blocks
      ensures Group(blocks, KeyOf(b)) == {b} && WinnerOf(blocks, KeyOf(b)) == b && b in Winners(blocks)
    {
      assert b in Group(blocks, KeyOf(b)) && KeyOf(b) in Keys(blocks);
      assert WinnerOf(blocks, KeyOf(b)) in Group(blocks, KeyOf(b));
    }
    forall k | k in Keys(blocks)
      ensures !Contested(blocks, k)
    {
      var b :| b in blocks && KeyOf(b) == k;
      assert Group(blocks, KeyOf(b)) == {b};
    }
  }

  /** One account opens and sends a part, and another account receives that SEND twice. */
  predicate IsDoubleReceipt(o: Block, s: Block, r: Block, t: Block) {
    && o.kind.Open? && o.nonce == 1
    && s.kind.Send? && s.account == o.account && s.nonce == 2
    && 0 < s.kind.amount <= o.kind.initialBalance && o.kind.initialBalance + s.kind.amount <= PNCounter.I64_MAX
    && s.kind.destination == r.account == t.account != o.account
    && r.kind == t.kind == Receive(s.hash) && r.nonce == 1 && t.nonce == 2
    && o.hash != s.hash && o.hash != r.hash && o.hash != t.hash
    && s.hash != r.hash && s.hash != t.hash && r.hash != t.hash
  }

  lemma DoubleReceiptIsUncontested(o: Block, s: Block, r: Block, t: Block)
    requires IsDoubleReceipt(o, s, r, t)
    ensures HashUnique({o, s, r, t}) && Winners({o, s, r, t}) == {o, s, r, t}
  {
    DoubleReceiptKeys(o, s, r, t, {o, s, r, t});
    UncontestedAllWin({o, s, r, t});
  }

  lemma DoubleReceiptKeys(o: Block, s: Block, r: Block, t: Block, blocks: set<Block>)
    requires IsDoubleReceipt(o, s, r, t) && forall b :: b in blocks ==> b == o || b == s || b == r || b == t
    ensures HashUnique(blocks)
    ensures forall x, y :: x in blocks && y in blocks && KeyOf(x) == KeyOf(y) ==> x == y
  {
  }

  lemma DoubleReceiptFlows(o: Block, s: Block, r: Block, t: Block)
    requires IsDoubleReceipt(o, s, r, t) && HashUnique({o, s, r, t})
    ensures var sends := SendsByHash({o, s, r, t});
      && s.hash in sends && sends[s.hash] == s
      && MovedAccounts({o, s, r, t}, sends) == {o.account, r.account}
      && BlocksFor({o, s, r, t}, o.account) == {o, s} && BlocksFor({o, s, r, t}, r.account) == {r, t}
  {
    var blocks := {o, s, r, t};
    SendIsIndexed(blocks, s);
    var sends := SendsByHash(blocks);
    assert Moves(sends, o) && Moves(sends, s) && Moves(sends, r) && Moves(sends, t);
    assert o in blocks && r in blocks;
  }

  lemma DoubleReceiptBalances(o: Block, s: Block, r: Block, t: Block, blocks: set<Block>, sends: map<string, Block>)
    requires IsDoubleReceipt(o, s, r, t) && s.hash in sends && sends[s.hash] == s
    requires BlocksFor(blocks, o.account) == {o, s} && BlocksFor(blocks, r.account) == {r, t}
    ensures BalanceOf(blocks, sends, o.account) == o.kind.initialBalance - s.kind.amount
    ensures BalanceOf(blocks, sends, r.account) == 2 * s.kind.amount
  {
    SumPair(o, s, Credits(sends));
    SumPair(o, s, SendAmount);
    SumPair(r, t, Credits(sends));
    SumPair(r, t, SendAmount);
  }

  /** Reconciliation takes both RECEIVEs of one SEND: the sent amount is at the receiver twice, and the balances sum to
      more than was opened. */
  lemma DoubleReceiptCreatesValue(o: Block, s: Block, r: Block, t: Block, outcome: Result<Report, Error>)
    requires IsDoubleReceipt(o, s, r, t) && Reconciles([o, s], [r, t], outcome)
    ensures outcome.Ok?
    ensures outcome.value.balances ==
            map[o.account := o.kind.initialBalance - s.kind.amount, r.account := 2 * s.kind.amount]
  {
    DoubleReceiptIsUncontested(o, s, r, t);
    assert [o, s] + [r, t] == [o, s, r, t];
    assert Elements([o, s] + [r, t]) == {o, s, r, t};
    DedupKeepsAll([o, s] + [r, t]);
    OutcomeGivesBalances({o, s, r, t}, outcome);
    DoubleReceiptFlows(o, s, r, t);
    DoubleReceiptOutcome(o, s, r, t, {o, s, r, t}, SendsByHash({o, s, r, t}), outcome);
  }

  /** What an outcome says about balances alone. */
  ghost predicate BalancesOutcome(winners: set<Block>, sends: map<string, Block>, r: Result<Report, Error>) {
    match r
    case Err(e) =>
      e.NegativeBalance? && e.account in MovedAccounts(winners, sends) && BalanceOf(winners, sends, e.account) < 0
    case Ok(report) => AreBalances(report.balances, winners, sends)
  }

  lemma OutcomeGivesBalances(blocks: set<Block>, r: Result<Report, Error>)
    requires HashUnique(blocks) && Describes(blocks, r) && Winners(blocks) == blocks
    ensures BalancesOutcome(blocks, SendsByHash(blocks), r)
  {
  }

  lemma DoubleReceiptOutcome(
    o: Block, s: Block, r: Block, t: Block, blocks: set<Block>, sends: map<string, Block>,
    outcome: Result<Report, Error>)
    requires IsDoubleReceipt(o, s, r, t) && s.hash in sends && sends[s.hash] == s
    requires MovedAccounts(blocks, sends) == {o.account, r.account}
    requires BlocksFor(blocks, o.account) == {o, s} && BlocksFor(blocks, r.account) == {r, t}
    requires BalancesOutcome(blocks, sends, outcome)
    ensures outcome.Ok?
    ensures outcome.value.balances ==
            map[o.account := o.kind.initialBalance - s.kind.amount, r.account := 2 * s.kind.amount]
  {
    DoubleReceiptBalances(o, s, r, t, blocks, sends);
    if outcome.Ok? {
      BalancesOfTwo(outcome.value.balances, blocks, sends, o.account, r.account);
    }
  }

  lemma BalancesOfTwo(m: map<string, int>, winners: set<Block>, sends: map<string, Block>, a: string, b: string)
    requires AreBalances(m, winners, sends) && MovedAccounts(winners, sends) == {a, b}
    ensures m == map[a := BalanceOf(winners, sends, a), b := BalanceOf(winners, sends, b)]
  {
    var n := map[a := BalanceOf(winners, sends, a), b := BalanceOf(winners, sends, b)];
    assert m.Keys == n.Keys;
    assert m[a] == n[a] && m[b] == n[b];
  }
}
