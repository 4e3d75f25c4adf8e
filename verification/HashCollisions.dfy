/** What reconciliation does with different blocks of one hash: the first one counts. */
module HashCollisions {
  import opened Common
  import Sums
  import Ordering
  import opened Blocks
  import opened Flows
  import PNCounter
  import opened Reconciliation
  import opened ReconciliationEssence
  import opened ReconciliationOutcome

  lemma {:induction false} FirstIsKept(x: Block, rest: seq<Block>)
    ensures x in Dedup([x] + rest)
  {
    var all := [x] + rest;
    if rest == [] {
      assert all[..0] == [] && Dedup([]) == [];
    } else {
      FirstIsKept(x, rest[..|rest| - 1]);
      assert all[..|all| - 1] == [x] + rest[..|rest| - 1];
    }
  }

  lemma {:induction false} SetIsListed(blocks: set<Block>) returns (xs: seq<Block>)
    ensures Elements(xs) == blocks
    decreases |blocks|
  {
    if blocks == {} {
      xs := [];
    } else {
      var b :| b in blocks;
      var rest := SetIsListed(blocks - {b});
      xs := [b] + rest;
      assert Elements(xs) == {b} + Elements(rest);
    }
  }

  /** Two lists of the same blocks are left with the same essences. */
  ghost predicate RetainSame(xs: seq<Block>, ys: seq<Block>) {
    Essences(Elements(Dedup(xs))) == Essences(Elements(Dedup(ys)))
  }

  lemma CollisionIsRetainedFirst(x: Block, y: Block, rest: seq<Block>)
    requires x.hash == y.hash && Essence(x) != Essence(y)
    ensures !RetainSame([x] + rest, [y] + rest)
  {
    FirstIsKept(x, rest);
    FirstIsKept(y, rest);
    DedupIsHashUnique([y] + rest);
    assert x in Elements(Dedup([x] + rest)) && y in Elements(Dedup([y] + rest));
    assert Essence(x) in Essences(Elements(Dedup([x] + rest)));
    assert Essence(x) !in Essences(Elements(Dedup([y] + rest)));
  }

  lemma CollidingLists(blocks: set<Block>) returns (xs: seq<Block>, ys: seq<Block>)
    requires !HashesDecide(blocks)
    ensures Elements(xs) == blocks && Elements(ys) == blocks && !RetainSame(xs, ys)
  {
    var u, v :| u in Essences(blocks) && v in Essences(blocks) && u.hash == v.hash && u != v;
    var x :| x in blocks && Essence(x) == u;
    var y :| y in blocks && Essence(y) == v;
    var rest := SetIsListed(blocks);
    xs, ys := [x] + rest, [y] + rest;
    assert Elements(xs) == {x} + Elements(rest) && Elements(ys) == {y} + Elements(rest);
    CollisionIsRetainedFirst(x, y, rest);
  }

  /** The condition is exact for what deduplication hands to the rest of reconciliation: every order and repetition of
      some blocks leaves the same essences if and only if hashes decide the essence of these blocks. */
  lemma RetentionIsExact(blocks: set<Block>)
    ensures HashesDecide(blocks) <==>
            forall xs, ys {:trigger RetainSame(xs, ys)} ::
              Elements(xs) == blocks && Elements(ys) == blocks ==> RetainSame(xs, ys)
  {
    if HashesDecide(blocks) {
      forall xs, ys | Elements(xs) == blocks && Elements(ys) == blocks
        ensures RetainSame(xs, ys)
      {
        DedupKeepsEssences(xs);
        DedupKeepsEssences(ys);
      }
    } else {
      var xs, ys := CollidingLists(blocks);
      assert !RetainSame(xs, ys);
    }
  }

  /** Two first blocks of one account that open it, with one hash. */
  predicate CollidingOpens(x: Block, y: Block) {
    x.kind.Open? && y.kind.Open? && x.nonce == y.nonce == 1 && x.account == y.account && x.hash == y.hash
  }

  lemma SingleOpen(x: Block)
    requires x.kind.Open? && x.nonce == 1
    ensures HashUnique({x}) && Winners({x}) == {x} && SendsByHash({x}) == map[]
    ensures MovedAccounts({x}, map[]) == {x.account}
    ensures BalanceOf({x}, map[], x.account) == Min(x.kind.initialBalance, PNCounter.I64_MAX)
  {
    assert KeyOf(x) in Keys({x}) && Group({x}, KeyOf(x)) == {x};
    assert WinnerOf({x}, KeyOf(x)) in Group({x}, KeyOf(x));
    assert BlocksFor({x}, x.account) == {x};
    Sums.SumAdd({}, Credits(map[]), x);
    Sums.SumAdd({}, SendAmount, x);
    assert {} + {x} == {x};
    assert Moves(map[], x);
  }

  lemma FirstOfTwo(x: Block, y: Block)
    requires x.hash == y.hash
    ensures Elements(Dedup([x] + [y])) == {x}
  {
    assert ([x] + [y])[..1] == [x] && [x][..0] == [];
    assert Dedup([x]) == [x];
    assert x in [x];
  }

  /** The outcome itself then depends on the order: the OPEN that arrives first decides the balance. */
  lemma FirstOpenDecides(x: Block, y: Block, r: Result<Report, Error>)
    requires CollidingOpens(x, y) && Reconciles([x], [y], r)
    ensures r.Ok? && r.value.balances == map[x.account := Min(x.kind.initialBalance, PNCounter.I64_MAX)]
    ensures r.value.conflicts == [] && r.value.rejectedReceives == [] && r.value.rejectedGenesis == []
  {
    FirstOfTwo(x, y);
    SingleOpen(x);
    SingleReport(x, r);
  }

  lemma SingleReport(x: Block, r: Result<Report, Error>)
    requires x.kind.Open? && x.nonce == 1 && HashUnique({x}) && Winners({x}) == {x} && SendsByHash({x}) == map[]
    requires MovedAccounts({x}, map[]) == {x.account} && BalanceOf({x}, map[], x.account) >= 0
    requires Describes({x}, r)
    ensures r.Ok? && r.value.balances == map[x.account := BalanceOf({x}, map[], x.account)]
    ensures r.value.conflicts == [] && r.value.rejectedReceives == [] && r.value.rejectedGenesis == []
  {
    SingleOpenIsClean(x);
    if r.Ok? {
      BalancesOfOne(r.value.balances, {x}, map[], x.account);
      Ordering.HeadIsIn(r.value.conflicts);
    }
  }

  lemma BalancesOfOne(m: map<string, int>, winners: set<Block>, sends: map<string, Block>, a: string)
    requires AreBalances(m, winners, sends) && MovedAccounts(winners, sends) == {a}
    ensures m == map[a := BalanceOf(winners, sends, a)]
  {
    assert m[a] == BalanceOf(winners, sends, a);
  }

  lemma SortedAlone(k: Key)
    ensures SortedKeys({k}) == [k]
  {
    KeyOrder();
    assert KeyLe(k, k);
    LeastKeyFirst({k}, k);
    assert {k} - {k} == {};
  }

  lemma SingleOpenIsClean(x: Block)
    requires x.kind.Open? && x.nonce == 1
    ensures ConflictsOf({x}) == {}
    ensures ReceiveRejections(map[], WinnersInOrder({x})) == [] && GenesisRejections(WinnersInOrder({x})) == []
  {
    var k := KeyOf(x);
    assert Keys({x}) == {k} && Group({x}, k) == {x};
    assert WinnerOf({x}, k) in Group({x}, k);
    SortedAlone(k);
    NextWinnerInOrder({x}, [], k);
    assert [] + [k] == [k] && WinnersInOrder({x}) == [] + [x];
  }

  /** Two orders of colliding OPENs have the same outcome exactly when their amounts are the same to a counter. */
  lemma CollidingOpensAgreeIff(x: Block, y: Block, r1: Result<Report, Error>, r2: Result<Report, Error>)
    requires CollidingOpens(x, y) && Reconciles([x], [y], r1) && Reconciles([y], [x], r2)
    ensures SameOutcome(r1, r2) <==>
            Min(x.kind.initialBalance, PNCounter.I64_MAX) == Min(y.kind.initialBalance, PNCounter.I64_MAX)
  {
    FirstOpenDecides(x, y, r1);
    FirstOpenDecides(y, x, r2);
    assert r1.value.balances[x.account] == Min(x.kind.initialBalance, PNCounter.I64_MAX);
    assert r2.value.balances[x.account] == Min(y.kind.initialBalance, PNCounter.I64_MAX);
  }
}
