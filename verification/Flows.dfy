/** What a set of blocks says about the movement of value, independently of who evaluates it. */
module Flows {
  import opened Sums
  import opened Blocks

  ghost function Elements(blocks: seq<Block>): set<Block> {
    set b | b in blocks
  }

  ghost predicate HashUnique(blocks: set<Block>) {
    forall x, y :: x in blocks && y in blocks && x.hash == y.hash ==> x == y
  }

  /** The SENDs of a set of blocks, by hash. */
  ghost function SendsByHash(blocks: set<Block>): map<string, Block>
    requires HashUnique(blocks)
  {
    map b | b in blocks && b.kind.Send? :: b.hash := b
  }

  lemma SendIsIndexed(blocks: set<Block>, s: Block)
    requires HashUnique(blocks) && s in blocks && s.kind.Send?
    ensures s.hash in SendsByHash(blocks) && SendsByHash(blocks)[s.hash] == s
  {
  }
  /** A RECEIVE moves value when its source is a known SEND to the receiver. */
  predicate Accepted(sends: map<string, Block>, b: Block) {
    && b.kind.Receive?
    && b.kind.sourceHash in sends
    && sends[b.kind.sourceHash].kind.Send?
    && sends[b.kind.sourceHash].kind.destination == b.account
  }

  function GenesisAmount(b: Block): int {
    if b.kind.Open? && b.nonce == 1 then b.kind.initialBalance else 0
  }

  function SendAmount(b: Block): int {
    if b.kind.Send? then b.kind.amount else 0
  }

  function ReceivedAmount(sends: map<string, Block>, b: Block): int {
    if Accepted(sends, b) then sends[b.kind.sourceHash].kind.amount else 0
  }

  /** What a block adds to its account. */
  function Credit(sends: map<string, Block>, b: Block): int {
    GenesisAmount(b) + ReceivedAmount(sends, b)
  }

  ghost function ReceivedAmounts(sends: map<string, Block>): Block -> int {
    b => ReceivedAmount(sends, b)
  }

  ghost function Credits(sends: map<string, Block>): Block -> int {
    b => Credit(sends, b)
  }

  ghost function Net(sends: map<string, Block>): Block -> int {
    b => Credit(sends, b) - SendAmount(b)
  }

  function AccountOf(b: Block): string {
    b.account
  }

  ghost function BlocksFor(blocks: set<Block>, account: string): set<Block> {
    Fiber(blocks, AccountOf, account)
  }

  /** The SENDs no accepted RECEIVE cites. */
  ghost function Unreceived(blocks: set<Block>): set<Block>
    requires HashUnique(blocks)
  {
    set s | s in blocks && s.kind.Send? && !Cited(blocks, s)
  }

  ghost predicate Cited(blocks: set<Block>, s: Block)
    requires HashUnique(blocks)
  {
    exists r :: r in blocks && Accepted(SendsByHash(blocks), r) && r.kind.sourceHash == s.hash
  }

  /** No two accepted RECEIVEs cite one SEND of a positive amount. */
  ghost predicate NoDoubleCredit(blocks: set<Block>)
    requires HashUnique(blocks)
  {
    forall r, s :: r in blocks && s in blocks && CreditTheSame(SendsByHash(blocks), r, s) ==> r == s
  }

  predicate CreditTheSame(sends: map<string, Block>, r: Block, s: Block) {
    Accepted(sends, r) && Accepted(sends, s) && r.kind == s.kind && ReceivedAmount(sends, r) > 0
  }

  /** Net movements, account by account, add up to opened minus sent plus received. */
  lemma FlowsAddUp(blocks: set<Block>, accounts: set<string>, f: string -> int)
    requires HashUnique(blocks)
    requires forall b :: b in blocks ==> b.account in accounts
    requires forall a :: a in accounts ==> f(a) == SumOver(BlocksFor(blocks, a), Net(SendsByHash(blocks)))
    ensures SumOver(accounts, f) ==
            SumOver(blocks, GenesisAmount) - SumOver(blocks, SendAmount)
            + SumOver(blocks, ReceivedAmounts(SendsByHash(blocks)))
  {
    var sends := SendsByHash(blocks);
    SumFibers(blocks, AccountOf, Net(sends), accounts, f);
    SumPlus(blocks, GenesisAmount, ReceivedAmounts(sends), Credits(sends));
    SumPlus(blocks, Net(sends), SendAmount, Credits(sends));
  }

  /** The accepted RECEIVEs of a set of blocks. */
  ghost function Receipts(blocks: set<Block>): set<Block>
    requires HashUnique(blocks)
  {
    set r | r in blocks && Accepted(SendsByHash(blocks), r)
  }

  ghost function CitedSends(blocks: set<Block>): set<Block>
    requires HashUnique(blocks)
  {
    set s | s in blocks && s.kind.Send? && Cited(blocks, s)
  }

  /** The SEND a RECEIVE cites. */
  ghost function SourceOf(sends: map<string, Block>): Block -> Block {
    (r: Block) => if Accepted(sends, r) then sends[r.kind.sourceHash] else r
  }

  /** The RECEIVEs of one SEND. */
  ghost function ReceiptsOf(blocks: set<Block>, s: Block): set<Block>
    requires HashUnique(blocks)
  {
    Fiber(Receipts(blocks), SourceOf(SendsByHash(blocks)), s)
  }

  /** What the RECEIVEs of a SEND credit altogether. */
  ghost function CreditedFrom(blocks: set<Block>): Block -> int
    requires HashUnique(blocks)
  {
    (s: Block) => SumOver(ReceiptsOf(blocks, s), ReceivedAmounts(SendsByHash(blocks)))
  }

  lemma ReceiptOf(blocks: set<Block>, r: Block)
    requires HashUnique(blocks) && r in Receipts(blocks)
    ensures var s := SendsByHash(blocks)[r.kind.sourceHash];
      && s in CitedSends(blocks) && r in ReceiptsOf(blocks, s)
      && s.hash == r.kind.sourceHash && ReceivedAmount(SendsByHash(blocks), r) == SendAmount(s)
  {
    assert Cited(blocks, SendsByHash(blocks)[r.kind.sourceHash]);
  }

  /** A cited SEND is credited once per RECEIVE: at least its amount, and exactly its amount if it is zero or there
      is only one RECEIVE. */
  lemma CreditedPerReceipt(blocks: set<Block>, s: Block)
    requires HashUnique(blocks) && s in CitedSends(blocks)
    ensures ReceiptsOf(blocks, s) != {} && CreditedFrom(blocks)(s) == |ReceiptsOf(blocks, s)| * SendAmount(s)
    ensures CreditedFrom(blocks)(s) >= SendAmount(s)
    ensures CreditedFrom(blocks)(s) == SendAmount(s) <==> SendAmount(s) == 0 || |ReceiptsOf(blocks, s)| == 1
  {
    var f := ReceivedAmounts(SendsByHash(blocks));
    var r :| r in blocks && Accepted(SendsByHash(blocks), r) && r.kind.sourceHash == s.hash;
    SendIsIndexed(blocks, s);
    assert r in ReceiptsOf(blocks, s);
    forall q | q in ReceiptsOf(blocks, s)
      ensures f(q) == SendAmount(s)
    {
      ReceiptOf(blocks, q);
    }
    SumConstant(ReceiptsOf(blocks, s), f, SendAmount(s));
    Multiples(|ReceiptsOf(blocks, s)|, SendAmount(s));
  }

  lemma Multiples(n: nat, c: nat)
    requires n >= 1
    ensures n * c >= c && (n * c == c <==> c == 0 || n == 1)
  {
    assert n * c == c + (n - 1) * c;
  }

  lemma SingletonHasOne<T>(s: set<T>)
    requires s != {}
    ensures |s| == 1 <==> forall x, y :: x in s && y in s ==> x == y
  {
    var x :| x in s;
    if |s| == 1 {
      assert |s - {x}| == 0;
    }
    if forall y, z :: y in s && z in s ==> y == z {
      assert s == {x};
    }
  }

  /** A SEND of no amount, or with one RECEIVE. */
  ghost predicate OnceOrNothing(blocks: set<Block>, s: Block)
    requires HashUnique(blocks)
  {
    SendAmount(s) == 0 || |ReceiptsOf(blocks, s)| == 1
  }

  lemma OneReceiptOf(blocks: set<Block>, s: Block)
    requires HashUnique(blocks) && NoDoubleCredit(blocks) && s in CitedSends(blocks)
    ensures OnceOrNothing(blocks, s)
  {
    CreditedPerReceipt(blocks, s);
    SingletonHasOne(ReceiptsOf(blocks, s));
    forall q | q in ReceiptsOf(blocks, s)
      ensures q in blocks && q.kind == Receive(s.hash) && ReceivedAmount(SendsByHash(blocks), q) == SendAmount(s)
    {
      ReceiptOf(blocks, q);
    }
  }

  lemma SameReceipt(blocks: set<Block>, r: Block, q: Block)
    requires HashUnique(blocks) && r in blocks && q in blocks && CreditTheSame(SendsByHash(blocks), r, q)
    requires forall s :: s in CitedSends(blocks) ==> OnceOrNothing(blocks, s)
    ensures r == q
  {
    ReceiptOf(blocks, r);
    ReceiptOf(blocks, q);
    SingletonHasOne(ReceiptsOf(blocks, SendsByHash(blocks)[r.kind.sourceHash]));
  }

  lemma OneReceiptEach(blocks: set<Block>)
    requires HashUnique(blocks)
    ensures NoDoubleCredit(blocks) <==> forall s :: s in CitedSends(blocks) ==> OnceOrNothing(blocks, s)
  {
    if NoDoubleCredit(blocks) {
      forall s | s in CitedSends(blocks) ensures OnceOrNothing(blocks, s) {
        OneReceiptOf(blocks, s);
      }
    } else if forall s :: s in CitedSends(blocks) ==> OnceOrNothing(blocks, s) {
      forall r, q | r in blocks && q in blocks && CreditTheSame(SendsByHash(blocks), r, q)
        ensures r == q
      {
        SameReceipt(blocks, r, q);
      }
    }
  }

  /** What accepted RECEIVEs credit, together with the SENDs nobody received, is at least what was sent, and is exactly
      that when and only when no SEND of a positive amount is received twice. */
  lemma ReceiptsMatchSends(blocks: set<Block>)
    requires HashUnique(blocks)
    ensures var received := SumOver(blocks, ReceivedAmounts(SendsByHash(blocks)));
      var unreceived := SumOver(Unreceived(blocks), SendAmount);
      && received + unreceived >= SumOver(blocks, SendAmount)
      && (received + unreceived == SumOver(blocks, SendAmount) <==> NoDoubleCredit(blocks))
  {
    var sends := SendsByHash(blocks);
    var receipts, cited, f := Receipts(blocks), CitedSends(blocks), ReceivedAmounts(sends);
    DropZeros(blocks, receipts, f);
    DropZeros(blocks, cited + Unreceived(blocks), SendAmount);
    SumUnion(cited, Unreceived(blocks), SendAmount);
    forall r | r in receipts ensures SourceOf(sends)(r) in cited {
      ReceiptOf(blocks, r);
    }
    forall s | s in cited
      ensures SumsFiber(receipts, SourceOf(sends), f, CreditedFrom(blocks), s)
      ensures SendAmount(s) <= CreditedFrom(blocks)(s)
      ensures CreditedFrom(blocks)(s) == SendAmount(s) <==> OnceOrNothing(blocks, s)
    {
      CreditedPerReceipt(blocks, s);
    }
    SumFibers(receipts, SourceOf(sends), f, cited, CreditedFrom(blocks));
    SumBelow(cited, SendAmount, CreditedFrom(blocks));
    OneReceiptEach(blocks);
  }

  lemma DropZeros(blocks: set<Block>, part: set<Block>, f: Block -> int)
    requires part <= blocks
    requires forall b :: b in blocks - part ==> f(b) == 0
    ensures SumOver(blocks, f) == SumOver(part, f)
  {
    SumUnion(part, blocks - part, f);
    SumZero(blocks - part, f);
    assert blocks == part + (blocks - part);
  }

  /** Conservation: value at accounts together with value in SENDs nobody has received is what was opened, when and
      only when no SEND of a positive amount is received twice, and otherwise it is more. */
  lemma Conservation(blocks: set<Block>, accounts: set<string>, f: string -> int)
    requires HashUnique(blocks)
    requires forall b :: b in blocks ==> b.account in accounts
    requires forall a :: a in accounts ==> f(a) == SumOver(BlocksFor(blocks, a), Net(SendsByHash(blocks)))
    ensures var held := SumOver(accounts, f) + SumOver(Unreceived(blocks), SendAmount);
      && held >= SumOver(blocks, GenesisAmount)
      && (held == SumOver(blocks, GenesisAmount) <==> NoDoubleCredit(blocks))
  {
    FlowsAddUp(blocks, accounts, f);
    ReceiptsMatchSends(blocks);
  }
}
