/** A counter of credits and debits per node, with saturating arithmetic. */
module PNCounter {
  import opened Common
  import Sums

  const I64_MAX: int := 0x7FFF_FFFF_FFFF_FFFF

  datatype Counter = Counter(p: map<string, u64>, n: map<string, u64>)

  const ZERO_COUNTER := Counter(map[], map[])

  function Bump(m: map<string, u64>, node: string, amount: u64): map<string, u64> {
    m[node := SatAdd(if node in m then m[node] else 0, amount)]
  }

  function Credited(c: Counter, node: string, amount: u64): Counter {
    c.(p := Bump(c.p, node, amount))
  }

  function Debited(c: Counter, node: string, amount: u64): Counter {
    c.(n := Bump(c.n, node, amount))
  }

  ghost function EntryOf(m: map<string, u64>): string -> int {
    k => if k in m then m[k] else 0
  }

  ghost function TotalOf(m: map<string, u64>): u64 {
    Sums.ClampedSum(m.Keys, EntryOf(m))
  }

  /** The signed difference of two totals, saturated to the `i64` range. */
  function Settle(tp: u64, tn: u64): int {
    if tp >= tn then
      if tp - tn <= I64_MAX then tp - tn else I64_MAX
    else
      if tn - tp <= I64_MAX then -(tn - tp) else -I64_MAX - 1
  }

  ghost function ValueOf(c: Counter): int {
    Settle(TotalOf(c.p), TotalOf(c.n))
  }

  /** Element-wise maximum. */
  function JoinMaps(a: map<string, u64>, b: map<string, u64>): map<string, u64> {
    map k | k in a.Keys + b.Keys ::
      if k !in b then a[k] else if k !in a then b[k] else if a[k] >= b[k] then a[k] else b[k]
  }

  function Join(a: Counter, b: Counter): Counter {
    Counter(JoinMaps(a.p, b.p), JoinMaps(a.n, b.n))
  }

  ghost predicate MapBelow(a: map<string, u64>, b: map<string, u64>) {
    forall k :: k in a ==> k in b && a[k] <= b[k]
  }

  /** Whether one counter knows no more than another. */
  ghost predicate Below(a: Counter, b: Counter) {
    MapBelow(a.p, b.p) && MapBelow(a.n, b.n)
  }

  lemma MapJoinIsLeastUpperBound(a: map<string, u64>, b: map<string, u64>, c: map<string, u64>)
    ensures MapBelow(a, JoinMaps(a, b)) && MapBelow(b, JoinMaps(a, b))
    ensures MapBelow(a, c) && MapBelow(b, c) <==> MapBelow(JoinMaps(a, b), c)
  {
    var j := JoinMaps(a, b);
    assert forall k :: k in j <==> k in a || k in b;
    if MapBelow(j, c) {
      forall k | k in a ensures k in c && a[k] <= c[k] { assert k in j; }
      forall k | k in b ensures k in c && b[k] <= c[k] { assert k in j; }
    }
  }

  /** Merging gives the least counter that knows what both know, so replicas converge in any merge order. */
  lemma JoinIsLeastUpperBound(a: Counter, b: Counter, c: Counter)
    ensures Below(a, Join(a, b)) && Below(b, Join(a, b))
    ensures Below(a, c) && Below(b, c) <==> Below(Join(a, b), c)
  {
    MapJoinIsLeastUpperBound(a.p, b.p, c.p);
    MapJoinIsLeastUpperBound(a.n, b.n, c.n);
  }

  lemma BelowIsAntisymmetric(a: Counter, b: Counter)
    requires Below(a, b) && Below(b, a)
    ensures a == b
  {
    assert a.p.Keys == b.p.Keys && a.n.Keys == b.n.Keys;
  }

  /** Local updates only add knowledge. */
  lemma UpdatesInflate(c: Counter, node: string, amount: u64)
    ensures Below(c, Credited(c, node, amount)) && Below(c, Debited(c, node, amount))
  {
  }

  // ---- Replicas ----

  /** What can happen to a replica of a counter. */
  datatype Op =
    | Incremented(node: string, amount: u64)
    | Decremented(node: string, amount: u64)
    | MergedWith(other: Counter)

  function Apply(c: Counter, op: Op): Counter {
    match op
    case Incremented(node, amount) => Credited(c, node, amount)
    case Decremented(node, amount) => Debited(c, node, amount)
    case MergedWith(other) => Join(c, other)
  }

  function ApplyAll(c: Counter, ops: seq<Op>): Counter {
    if ops == [] then c else Apply(ApplyAll(c, ops[..|ops| - 1]), ops[|ops| - 1])
  }

  lemma BelowIsTransitive(a: Counter, b: Counter, c: Counter)
    requires Below(a, b) && Below(b, c)
    ensures Below(a, c)
  {
  }

  /** Over any run a replica forgets neither what it knew nor anything it merged. */
  lemma {:induction false} RunsOnlyLearn(c: Counter, ops: seq<Op>)
    ensures Below(c, ApplyAll(c, ops))
    ensures forall op :: op in ops && op.MergedWith? ==> Below(op.other, ApplyAll(c, ops))
  {
    if ops != [] {
      var init, last := ops[..|ops| - 1], ops[|ops| - 1];
      var before, after := ApplyAll(c, init), ApplyAll(c, ops);
      RunsOnlyLearn(c, init);
      assert Below(before, after) by {
        match last {
          case Incremented(node, amount) => UpdatesInflate(before, node, amount);
          case Decremented(node, amount) => UpdatesInflate(before, node, amount);
          case MergedWith(other) => JoinIsLeastUpperBound(before, other, after);
        }
      }
      BelowIsTransitive(c, before, after);
      forall op | op in ops && op.MergedWith?
        ensures Below(op.other, after)
      {
        if op in init {
          BelowIsTransitive(op.other, before, after);
        } else {
          JoinIsLeastUpperBound(before, op.other, after);
        }
      }
    }
  }

  /** Merging several counters into one. */
  function MergeAll(c: Counter, others: seq<Counter>): Counter {
    if others == [] then c else Join(MergeAll(c, others[..|others| - 1]), others[|others| - 1])
  }

  /** Merging gives the least counter that knows what any of them knows. */
  lemma {:induction false} MergeAllIsLeast(c: Counter, others: seq<Counter>, bound: Counter)
    ensures Below(MergeAll(c, others), bound) <==> Below(c, bound) && forall o :: o in others ==> Below(o, bound)
  {
    if others != [] {
      var init, last := others[..|others| - 1], others[|others| - 1];
      MergeAllIsLeast(c, init, bound);
      JoinIsLeastUpperBound(MergeAll(c, init), last, bound);
      assert others == init + [last];
    }
  }

  lemma SelfBelow(c: Counter)
    ensures Below(c, c)
  {
  }

  /** Replicas converge: two of them that have merged the same counters, their own among them, are equal, whatever the
      order, the repetition and the starting point. */
  lemma ReplicasConverge(c: Counter, others: seq<Counter>, d: Counter, more: seq<Counter>)
    requires forall x :: x in [c] + others <==> x in [d] + more
    ensures MergeAll(c, others) == MergeAll(d, more)
  {
    var m, n := MergeAll(c, others), MergeAll(d, more);
    SelfBelow(m);
    SelfBelow(n);
    MergeAllIsLeast(c, others, m);
    MergeAllIsLeast(d, more, n);
    assert forall x :: x in [c] + others ==> Below(x, m);
    assert forall x :: x in [d] + more ==> Below(x, n);
    assert c in [d] + more && d in [c] + others;
    MergeAllIsLeast(c, others, n);
    MergeAllIsLeast(d, more, m);
    BelowIsAntisymmetric(m, n);
  }

  /** The fold of `u64::saturating_add` over the values, in whatever order. */
  method SaturatingTotal(m: map<string, u64>) returns (t: u64)
    ensures t == TotalOf(m)
  {
    t := 0;
    var todo := m.Keys;
    while todo != {}
      invariant todo <= m.Keys
      invariant t == Sums.ClampedSum(m.Keys - todo, EntryOf(m))
      decreases todo
    {
      var k :| k in todo;
      Sums.SaturatingFoldStep(m.Keys - todo, k, EntryOf(m));
      assert m.Keys - (todo - {k}) == (m.Keys - todo) + {k};
      t := SatAdd(t, m[k]);
      todo := todo - {k};
    }
    assert m.Keys - todo == m.Keys;
  }

  method CounterValue(c: Counter) returns (v: int)
    ensures v == ValueOf(c)
  {
    var tp := SaturatingTotal(c.p);
    var tn := SaturatingTotal(c.n);
    if tp >= tn {
      v := if tp - tn <= I64_MAX then tp - tn else I64_MAX;
    } else {
      var magnitude := tn - tp;
      v := if magnitude <= I64_MAX then -magnitude else -I64_MAX - 1;
    }
  }

  /** With one node, bumping adds to the total, up to saturation. */
  lemma BumpAddsToTotal(m: map<string, u64>, node: string, amount: u64, x: nat)
    requires m.Keys <= {node} && TotalOf(m) == Clamp(x)
    ensures Bump(m, node, amount).Keys == {node}
    ensures TotalOf(Bump(m, node, amount)) == Clamp(x + amount)
  {
    var m' := Bump(m, node, amount);
    Sums.SumAdd({}, EntryOf(m'), node);
    assert {} + {node} == {node};
    if node in m {
      Sums.SumAdd({}, EntryOf(m), node);
      assert m.Keys == {node};
    } else {
      assert m.Keys == {};
    }
  }

  /** The counter with its maps updated in place. */
  class PNCounter {
    var p: map<string, u64>
    var n: map<string, u64>

    function View(): Counter
      reads this
    {
      Counter(p, n)
    }

    constructor ()
      ensures View() == ZERO_COUNTER
    {
      p := map[];
      n := map[];
    }

    method Increment(node: string, amount: u64)
      modifies this`p
      ensures View() == Credited(old(View()), node, amount)
    {
      if node !in p {
        p := p[node := 0];
      }
      p := p[node := SatAdd(p[node], amount)];
    }

    method Decrement(node: string, amount: u64)
      modifies this`n
      ensures View() == Debited(old(View()), node, amount)
    {
      if node !in n {
        n := n[node := 0];
      }
      n := n[node := SatAdd(n[node], amount)];
    }

    method Value() returns (v: int)
      ensures v == ValueOf(View())
    {
      v := CounterValue(View());
    }

    method Merge(other: Counter)
      modifies this
      ensures View() == Join(old(View()), other)
    {
      p := MergeInto(p, other.p);
      n := MergeInto(n, other.n);
    }
  }

  /** One pass of `merge`: every remote entry raises the local one. */
  method MergeInto(mine: map<string, u64>, theirs: map<string, u64>) returns (m: map<string, u64>)
    ensures m == JoinMaps(mine, theirs)
  {
    m := mine;
    var todo := theirs.Keys;
    while todo != {}
      invariant todo <= theirs.Keys
      invariant m == JoinMaps(mine, map k | k in theirs && k !in todo :: theirs[k])
      decreases todo
    {
      var k :| k in todo;
      var entry := if k in m then m[k] else 0;
      m := m[k := if entry >= theirs[k] then entry else theirs[k]];
      todo := todo - {k};
    }
    assert theirs == map k | k in theirs && k !in todo :: theirs[k];
  }
}
