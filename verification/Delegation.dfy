/** Stake delegation as a directed acyclic graph. */
module Delegation {
  import opened Common
  import Sums
  import opened Bytes
  import Domains

  const MAX_DELEGATION_DEPTH: nat := 8
  const DELEGATION_REVOCATION_DOMAIN: Bytes := Domains.Prefix(Domains.DelegationRevocation)

  /** The name of an account: the bytes of its text. */
  type Name = Bytes

  datatype DelegationError =
    | SelfDelegation
    | CycleDetected(source: Name, target: Name)
    | DepthExceeded(depth: nat, max: nat)
    | InvalidRevocationSignature
    | EdgeNotFound(delegator: Name, representative: Name)

  datatype Delegation = Delegation(delegator: Name, representative: Name, amount: u64, createdAt: u64)

  datatype Revocation = Revocation(
    delegatorKey: Bytes32, delegator: Name, representative: Name, nonce: u64, signature: Bytes)
  {
    /** The bytes the delegator signs: the two names follow each other without their lengths. */
    function CanonicalBytes(): Bytes {
      DELEGATION_REVOCATION_DOMAIN + delegatorKey + delegator + representative + Le8(nonce)
    }
  }

  datatype Edge = Edge(delegator: Name, representative: Name)

  type Adjacency = map<Name, set<Name>>

  predicate HasEdge(adj: Adjacency, a: Name, b: Name) {
    a in adj && b in adj[a]
  }

  /** A sequence of nodes, each delegating to the next. */
  ghost predicate Walk(adj: Adjacency, p: seq<Name>) {
    |p| >= 1 && forall i :: 0 <= i < |p| - 1 ==> HasEdge(adj, p[i], p[i + 1])
  }

  /** A walk of `n` edges leads from `a` to `b`. */
  ghost predicate WalkOf(adj: Adjacency, a: Name, b: Name, n: nat) {
    exists p :: Walk(adj, p) && |p| == n + 1 && p[0] == a && p[n] == b
  }

  ghost predicate Reaches(adj: Adjacency, a: Name, b: Name) {
    exists n: nat :: WalkOf(adj, a, b, n)
  }

  /** No node reaches itself by following at least one edge. */
  ghost predicate Acyclic(adj: Adjacency) {
    forall a, n: nat :: n > 0 ==> !WalkOf(adj, a, a, n)
  }

  ghost predicate Closed(adj: Adjacency, nodes: iset<Name>) {
    forall a, b :: a in nodes && HasEdge(adj, a, b) ==> b in nodes
  }

  /** A walk never leaves a closed set of nodes. */
  lemma {:induction false} WalkStaysInside(adj: Adjacency, nodes: iset<Name>, p: seq<Name>, i: nat, j: nat)
    requires Walk(adj, p) && Closed(adj, nodes) && i <= j < |p| && p[i] in nodes
    ensures p[j] in nodes
    decreases j - i
  {
    if i < j {
      assert HasEdge(adj, p[i], p[i + 1]);
      WalkStaysInside(adj, nodes, p, i + 1, j);
    }
  }

  lemma ClosedExcludes(adj: Adjacency, nodes: iset<Name>, a: Name, b: Name)
    requires Closed(adj, nodes) && a in nodes && b !in nodes
    ensures !Reaches(adj, a, b)
  {
    forall n: nat
      ensures !WalkOf(adj, a, b, n)
    {
      if WalkOf(adj, a, b, n) {
        var p :| Walk(adj, p) && |p| == n + 1 && p[0] == a && p[n] == b;
        WalkStaysInside(adj, nodes, p, 0, n);
        assert false;
      }
    }
  }

  lemma ExtendWalk(adj: Adjacency, a: Name, b: Name, c: Name, n: nat)
    requires WalkOf(adj, a, b, n) && HasEdge(adj, b, c)
    ensures WalkOf(adj, a, c, n + 1)
  {
    var p :| Walk(adj, p) && |p| == n + 1 && p[0] == a && p[n] == b;
    var q := p + [c];
    forall i | 0 <= i < |q| - 1
      ensures HasEdge(adj, q[i], q[i + 1])
    {
      if i < n {
        assert HasEdge(adj, p[i], p[i + 1]);
      }
    }
    assert Walk(adj, q) && q[n + 1] == c;
  }

  function WithEdge(adj: Adjacency, a: Name, b: Name): Adjacency {
    adj[a := (if a in adj then adj[a] else {}) + {b}]
  }

  function WithoutEdge(adj: Adjacency, a: Name, b: Name): Adjacency
    requires a in adj
  {
    var rest := adj[a] - {b};
    if rest == {} then adj - {a} else adj[a := rest]
  }

  lemma EdgesOfWithEdge(adj: Adjacency, a: Name, b: Name, x: Name, y: Name)
    ensures HasEdge(WithEdge(adj, a, b), x, y) <==> HasEdge(adj, x, y) || (x == a && y == b)
  {
  }

  lemma EdgesOfWithoutEdge(adj: Adjacency, a: Name, b: Name, x: Name, y: Name)
    requires a in adj
    ensures HasEdge(WithoutEdge(adj, a, b), x, y) <==> HasEdge(adj, x, y) && !(x == a && y == b)
  {
    if x == a && HasEdge(adj, a, y) && y != b {
      assert y in adj[a] - {b};
    }
  }

  ghost function ReachableFrom(adj: Adjacency, a: Name): iset<Name> {
    iset x | Reaches(adj, a, x)
  }

  lemma ReachableIsClosed(adj: Adjacency, a: Name)
    ensures a in ReachableFrom(adj, a) && Closed(adj, ReachableFrom(adj, a))
  {
    assert Walk(adj, [a]) && WalkOf(adj, a, a, 0);
    forall x, y | x in ReachableFrom(adj, a) && HasEdge(adj, x, y)
      ensures y in ReachableFrom(adj, a)
    {
      var n: nat :| WalkOf(adj, a, x, n);
      ExtendWalk(adj, a, x, y, n);
    }
  }

  /** A walk that does not use a new edge was a walk before. */
  lemma UnusedEdge(adj: Adjacency, a: Name, b: Name, p: seq<Name>)
    requires Walk(WithEdge(adj, a, b), p)
    requires forall i :: 0 <= i < |p| - 1 ==> !(p[i] == a && p[i + 1] == b)
    ensures WalkOf(adj, p[0], p[|p| - 1], |p| - 1)
  {
    forall i | 0 <= i < |p| - 1
      ensures HasEdge(adj, p[i], p[i + 1])
    {
      EdgesOfWithEdge(adj, a, b, p[i], p[i + 1]);
    }
    assert Walk(adj, p);
  }

  /** A new edge closes no cycle when its representative does not already reach its delegator. */
  lemma NewEdgeKeepsAcyclic(adj: Adjacency, a: Name, b: Name)
    requires Acyclic(adj) && a != b && !Reaches(adj, b, a)
    ensures Acyclic(WithEdge(adj, a, b))
  {
    var adj' := WithEdge(adj, a, b);
    var beyond := ReachableFrom(adj, b);
    ReachableIsClosed(adj, b);
    forall x, y | x in beyond && HasEdge(adj', x, y)
      ensures y in beyond
    {
      EdgesOfWithEdge(adj, a, b, x, y);
    }
    forall x, n: nat | n > 0
      ensures !WalkOf(adj', x, x, n)
    {
      if WalkOf(adj', x, x, n) {
        var p :| Walk(adj', p) && |p| == n + 1 && p[0] == x && p[n] == x;
        if i :| 0 <= i < n && p[i] == a && p[i + 1] == b {
          // From b the cycle stays beyond b, goes round, and can never come back to a.
          WalkStaysInside(adj', beyond, p, i + 1, n);
          WalkStaysInside(adj', beyond, p, 0, i);
        } else {
          UnusedEdge(adj, a, b, p);
        }
        assert false;
      }
    }
  }

  lemma WalkTransfers(adj: Adjacency, adj': Adjacency, a: Name, b: Name, n: nat)
    requires WalkOf(adj', a, b, n) && forall x, y :: HasEdge(adj', x, y) ==> HasEdge(adj, x, y)
    ensures WalkOf(adj, a, b, n)
  {
    var p :| Walk(adj', p) && |p| == n + 1 && p[0] == a && p[n] == b;
    assert Walk(adj, p);
  }

  lemma FewerEdgesKeepAcyclic(adj: Adjacency, adj': Adjacency)
    requires Acyclic(adj) && forall x, y :: HasEdge(adj', x, y) ==> HasEdge(adj, x, y)
    ensures Acyclic(adj')
  {
    forall a, n: nat | n > 0 && WalkOf(adj', a, a, n)
      ensures WalkOf(adj, a, a, n)
    {
      WalkTransfers(adj, adj', a, a, n);
    }
  }

  // ---- The graph as a value ----

  datatype Graph = Graph(edges: map<Edge, Delegation>, adjacency: Adjacency)

  const EMPTY_GRAPH := Graph(map[], map[])

  /** The adjacency lists mirror the edges exactly. */
  ghost predicate Mirrored(g: Graph) {
    && (forall a, b {:trigger HasEdge(g.adjacency, a, b)} :: HasEdge(g.adjacency, a, b) <==> Edge(a, b) in g.edges)
    && (forall a :: a in g.adjacency ==> g.adjacency[a] != {})
    && (forall e :: e in g.edges ==> Edge(g.edges[e].delegator, g.edges[e].representative) == e)
  }

  ghost predicate Sound(g: Graph) {
    Mirrored(g) && Acyclic(g.adjacency)
  }

  function EdgeOf(d: Delegation): Edge {
    Edge(d.delegator, d.representative)
  }

  /** No walk of the maximal length leaves the representative without meeting the delegator. */
  ghost predicate WithinDepth(adj: Adjacency, d: Delegation) {
    !HasLongClearWalk(adj, d.delegator, d.representative, MAX_DELEGATION_DEPTH)
  }

  /** A successful `delegate`: an existing edge is updated, and a new edge closes no cycle. */
  ghost predicate Delegates(g: Graph, d: Delegation, g': Graph) {
    && d.delegator != d.representative
    && (if EdgeOf(d) in g.edges then
          g' == g.(edges := g.edges[EdgeOf(d) := d])
        else
          && !Reaches(g.adjacency, d.representative, d.delegator)
          && g' == Graph(g.edges[EdgeOf(d) := d], WithEdge(g.adjacency, d.delegator, d.representative)))
  }

  /** A successful `revoke`. */
  ghost predicate Revokes(g: Graph, e: Edge, g': Graph) {
    && e in g.edges
    && e.delegator in g.adjacency
    && g' == Graph(g.edges - {e}, WithoutEdge(g.adjacency, e.delegator, e.representative))
  }

  lemma DelegateKeepsSound(g: Graph, d: Delegation, g': Graph)
    requires Sound(g) && Delegates(g, d, g')
    ensures Sound(g')
  {
    if EdgeOf(d) in g.edges {
      forall a, b
        ensures HasEdge(g'.adjacency, a, b) <==> Edge(a, b) in g'.edges
      {
        assert HasEdge(g.adjacency, a, b) <==> Edge(a, b) in g.edges;
      }
    } else {
      NewEdgeKeepsAcyclic(g.adjacency, d.delegator, d.representative);
      forall a, b
        ensures HasEdge(g'.adjacency, a, b) <==> Edge(a, b) in g'.edges
      {
        EdgesOfWithEdge(g.adjacency, d.delegator, d.representative, a, b);
      }
    }
  }

  lemma RevokeKeepsSound(g: Graph, e: Edge, g': Graph)
    requires Sound(g) && Revokes(g, e, g')
    ensures Sound(g')
  {
    forall a, b
      ensures HasEdge(g'.adjacency, a, b) <==> Edge(a, b) in g'.edges
      ensures HasEdge(g'.adjacency, a, b) ==> HasEdge(g.adjacency, a, b)
    {
      EdgesOfWithoutEdge(g.adjacency, e.delegator, e.representative, a, b);
    }
    FewerEdgesKeepAcyclic(g.adjacency, g'.adjacency);
  }

  lemma NoEdgesIsAcyclic(adj: Adjacency)
    requires adj == map[]
    ensures Acyclic(adj)
  {
    forall p: seq<Name> | |p| > 1
      ensures !Walk(adj, p)
    {
      assert !HasEdge(adj, p[0], p[1]);
    }
  }

  ghost predicate Steps(g: Graph, g': Graph) {
    g' == g || (exists d :: Delegates(g, d, g')) || (exists e :: Revokes(g, e, g'))
  }

  /** Every graph reachable by delegating and revoking is acyclic, and its two tables agree. */
  lemma {:induction false} EveryReachableGraphIsSound(run: seq<Graph>, k: nat)
    requires k < |run| && run[0] == EMPTY_GRAPH
    requires forall i :: 0 <= i < |run| - 1 ==> Steps(run[i], run[i + 1])
    ensures Sound(run[k])
  {
    if k == 0 {
      NoEdgesIsAcyclic(run[0].adjacency);
    } else {
      EveryReachableGraphIsSound(run, k - 1);
      var g, g' := run[k - 1], run[k];
      assert Steps(g, g');
      if d :| Delegates(g, d, g') {
        DelegateKeepsSound(g, d, g');
      } else if e :| Revokes(g, e, g') {
        RevokeKeepsSound(g, e, g');
      }
    }
  }

  // ---- The depth-bounded search ----

  /** The order in which the neighbours of each node are taken. */
  type Order = map<Name, seq<Name>>

  /** The order lists every node's neighbours, each once. */
  ghost predicate Lists(order: Order, adj: Adjacency) {
    && order.Keys == adj.Keys
    && forall a :: a in adj ==> ListsSet(order[a], adj[a])
  }

  ghost predicate ListsSet(names: seq<Name>, s: set<Name>) {
    && (forall x :: x in names <==> x in s)
    && (forall i, j :: 0 <= i < j < |names| ==> names[i] != names[j])
  }

  type Stack = seq<(Name, nat)>

  /** The stack with the names pushed one after the other. */
  function Pushed(stack: Stack, names: seq<Name>, depth: nat): (r: Stack)
    ensures |r| == |stack| + |names|
  {
    stack + seq(|names|, i requires 0 <= i < |names| => (names[i], depth))
  }

  /** The depth-first search, given the order of neighbours. */
  function Search(order: Order, start: Name, target: Name, maxDepth: nat, visited: set<Name>, stack: Stack)
    : Result<(), DelegationError>
    decreases order.Keys - visited, |stack|
  {
    if stack == [] then
      Ok(())
    else
      var (node, depth) := stack[|stack| - 1];
      var rest := stack[..|stack| - 1];
      if node == target then
        Err(CycleDetected(target, start))
      else if depth >= maxDepth then
        Err(DepthExceeded(depth, maxDepth))
      else if node in visited then
        Search(order, start, target, maxDepth, visited, rest)
      else if node in order then
        assert node in order.Keys - visited;
        Search(order, start, target, maxDepth, visited + {node}, Pushed(rest, order[node], depth + 1))
      else
        assert order.Keys - (visited + {node}) == order.Keys - visited;
        Search(order, start, target, maxDepth, visited + {node}, rest)
  }

  /** A walk that stays clear of the target. */
  ghost predicate Avoids(p: seq<Name>, target: Name) {
    forall i :: 0 <= i < |p| ==> p[i] != target
  }

  ghost predicate Leads(adj: Adjacency, p: seq<Name>, a: Name, b: Name, n: nat) {
    Walk(adj, p) && |p| == n + 1 && p[0] == a && p[n] == b
  }

  /** A walk of `n` edges from `a` to `b` that is clear of the target before its end. */
  ghost predicate ClearWalkOf(adj: Adjacency, target: Name, a: Name, b: Name, n: nat) {
    exists p :: Leads(adj, p, a, b, n) && Avoids(p[..n], target)
  }

  ghost predicate HasLongClearWalk(adj: Adjacency, target: Name, a: Name, n: nat) {
    exists b :: b != target && ClearWalkOf(adj, target, a, b, n)
  }

  ghost predicate HasShortWalk(adj: Adjacency, a: Name, b: Name, n: nat) {
    exists m: nat :: m <= n && ClearWalkOf(adj, b, a, b, m)
  }

  lemma ClearWalkIsWalk(adj: Adjacency, target: Name, a: Name, b: Name, n: nat)
    requires ClearWalkOf(adj, target, a, b, n)
    ensures WalkOf(adj, a, b, n)
  {
    var p :| Leads(adj, p, a, b, n) && Avoids(p[..n], target);
  }

  lemma ExtendClearWalk(adj: Adjacency, target: Name, a: Name, b: Name, c: Name, n: nat)
    requires ClearWalkOf(adj, target, a, b, n) && HasEdge(adj, b, c) && b != target
    ensures ClearWalkOf(adj, target, a, c, n + 1)
  {
    var p :| Leads(adj, p, a, b, n) && Avoids(p[..n], target);
    var q := p + [c];
    forall i | 0 <= i < |q| - 1
      ensures HasEdge(adj, q[i], q[i + 1])
    {
      if i < n {
        assert HasEdge(adj, p[i], p[i + 1]);
      }
    }
    assert q[..n + 1] == p;
    assert Leads(adj, q, a, c, n + 1) && Avoids(q[..n + 1], target);
  }

  /** What waits on the stack was reached by a clear walk of its depth. */
  ghost predicate EntryIsReached(adj: Adjacency, start: Name, target: Name, e: (Name, nat), maxDepth: nat) {
    e.1 <= maxDepth && ClearWalkOf(adj, target, start, e.0, e.1)
  }

  ghost predicate StackIsReached(adj: Adjacency, start: Name, target: Name, stack: Stack, maxDepth: nat) {
    forall i {:trigger EntryIsReached(adj, start, target, stack[i], maxDepth)} ::
      0 <= i < |stack| ==> EntryIsReached(adj, start, target, stack[i], maxDepth)
  }

  ghost predicate OnStack(stack: Stack, node: Name) {
    exists i :: 0 <= i < |stack| && stack[i].0 == node
  }

  /** Everything next to a visited node is visited or waiting. */
  ghost predicate Frontier(adj: Adjacency, visited: set<Name>, stack: Stack) {
    forall a, b {:trigger HasEdge(adj, a, b)} ::
      a in visited && HasEdge(adj, a, b) ==> b in visited || OnStack(stack, b)
  }
  lemma PushShows(stack: Stack, names: seq<Name>, depth: nat, x: Name)
    ensures OnStack(Pushed(stack, names, depth), x) <==> OnStack(stack, x) || x in names
  {
    var pushed := Pushed(stack, names, depth);
    if i :| 0 <= i < |stack| && stack[i].0 == x {
      assert pushed[i].0 == x;
    }
    if i :| 0 <= i < |names| && names[i] == x {
      assert pushed[|stack| + i].0 == x;
    }
    if i :| 0 <= i < |pushed| && pushed[i].0 == x {
      assert i < |stack| ==> stack[i].0 == x;
    }
  }

  lemma PushedAreReached(
    adj: Adjacency, start: Name, target: Name, stack: Stack, names: seq<Name>, node: Name, depth: nat, maxDepth: nat)
    requires StackIsReached(adj, start, target, stack, maxDepth)
    requires ClearWalkOf(adj, target, start, node, depth) && node != target && depth < maxDepth
    requires forall x :: x in names ==> HasEdge(adj, node, x)
    ensures StackIsReached(adj, start, target, Pushed(stack, names, depth + 1), maxDepth)
  {
    var pushed := Pushed(stack, names, depth + 1);
    forall i | 0 <= i < |pushed|
      ensures EntryIsReached(adj, start, target, pushed[i], maxDepth)
    {
      if i < |stack| {
        assert EntryIsReached(adj, start, target, stack[i], maxDepth);
      } else {
        assert names[i - |stack|] in names;
        ExtendClearWalk(adj, target, start, node, pushed[i].0, depth);
      }
    }
  }

  lemma PoppedAreReached(adj: Adjacency, start: Name, target: Name, stack: Stack, maxDepth: nat)
    requires StackIsReached(adj, start, target, stack, maxDepth) && stack != []
    ensures StackIsReached(adj, start, target, stack[..|stack| - 1], maxDepth)
    ensures EntryIsReached(adj, start, target, stack[|stack| - 1], maxDepth)
  {
    var rest := stack[..|stack| - 1];
    forall i | 0 <= i < |rest|
      ensures EntryIsReached(adj, start, target, rest[i], maxDepth)
    {
      assert EntryIsReached(adj, start, target, stack[i], maxDepth);
    }
  }

  lemma FrontierMoves(adj: Adjacency, order: Order, visited: set<Name>, stack: Stack)
    requires Lists(order, adj) && Frontier(adj, visited, stack) && stack != []
    ensures var (node, depth) := stack[|stack| - 1];
      var rest := stack[..|stack| - 1];
      && (node in visited ==> Frontier(adj, visited, rest))
      && (node in order ==> Frontier(adj, visited + {node}, Pushed(rest, order[node], depth + 1)))
      && (node !in order ==> Frontier(adj, visited + {node}, rest))
  {
    var (node, depth) := stack[|stack| - 1];
    var rest := stack[..|stack| - 1];
    forall x
      ensures OnStack(stack, x) <==> OnStack(rest, x) || x == node
      ensures node in order ==>
        (OnStack(Pushed(rest, order[node], depth + 1), x) <==> OnStack(rest, x) || x in order[node])
    {
      if node in order {
        PushShows(rest, order[node], depth + 1, x);
      }
    }
    assert node in order ==> ListsSet(order[node], adj[node]);
  }

  /** An answer and what it means. */
  ghost predicate Means(
    adj: Adjacency, start: Name, target: Name, maxDepth: nat, r: Result<(), DelegationError>)
  {
    match r
    case Ok(_) => !Reaches(adj, start, target)
    case Err(e) =>
      || (e == CycleDetected(target, start) && HasShortWalk(adj, start, target, maxDepth))
      || (e == DepthExceeded(maxDepth, maxDepth) && HasLongClearWalk(adj, target, start, maxDepth))
  }

  /** Where a search stands. */
  ghost predicate Underway(
    adj: Adjacency, start: Name, target: Name, maxDepth: nat, visited: set<Name>, stack: Stack)
  {
    && target !in visited
    && StackIsReached(adj, start, target, stack, maxDepth)
    && Frontier(adj, visited, stack)
    && (start in visited || OnStack(stack, start))
  }

  lemma {:induction false} SearchMeans(
    adj: Adjacency, order: Order, start: Name, target: Name, maxDepth: nat, visited: set<Name>, stack: Stack)
    requires Lists(order, adj) && Underway(adj, start, target, maxDepth, visited, stack)
    ensures Means(adj, start, target, maxDepth, Search(order, start, target, maxDepth, visited, stack))
    decreases order.Keys - visited, |stack|
  {
    if stack == [] {
      ClosedExcludes(adj, (iset x | x in visited), start, target);
    } else {
      var (node, depth) := stack[|stack| - 1];
      var rest := stack[..|stack| - 1];
      PoppedAreReached(adj, start, target, stack, maxDepth);
      FrontierMoves(adj, order, visited, stack);
      if node == target || depth >= maxDepth {
      } else if node in visited {
        SearchMeans(adj, order, start, target, maxDepth, visited, rest);
      } else if node in order {
        assert ListsSet(order[node], adj[node]);
        PushedAreReached(adj, start, target, rest, order[node], node, depth, maxDepth);
        PushShows(rest, order[node], depth + 1, start);
        SearchMeans(adj, order, start, target, maxDepth, visited + {node}, Pushed(rest, order[node], depth + 1));
      } else {
        assert order.Keys - (visited + {node}) == order.Keys - visited;
        SearchMeans(adj, order, start, target, maxDepth, visited + {node}, rest);
      }
    }
  }

  lemma ShortWalkReaches(adj: Adjacency, a: Name, b: Name, n: nat)
    requires HasShortWalk(adj, a, b, n)
    ensures Reaches(adj, a, b)
  {
    var m: nat :| m <= n && ClearWalkOf(adj, b, a, b, m);
    ClearWalkIsWalk(adj, b, a, b, m);
  }

  /** The whole search. */
  function Answer(order: Order, start: Name, target: Name, maxDepth: nat): Result<(), DelegationError> {
    Search(order, start, target, maxDepth, {}, [(start, 0)])
  }

  /** What each answer means, for every order in which neighbours are taken: no error means that there is no path, a
      reported cycle that there is one of at most `maxDepth` edges, and exceeding the depth that some walk of `maxDepth`
      edges leaves `start` without meeting the target. */
  lemma AnswerMeans(adj: Adjacency, order: Order, start: Name, target: Name, maxDepth: nat)
    requires Lists(order, adj)
    ensures Means(adj, start, target, maxDepth, Answer(order, start, target, maxDepth))
  {
    var stack: Stack := [(start, 0)];
    assert Leads(adj, [start], start, start, 0) && Avoids([start][..0], target);
    assert EntryIsReached(adj, start, target, stack[0], maxDepth);
    assert OnStack(stack, start) by { assert stack[0].0 == start; }
    SearchMeans(adj, order, start, target, maxDepth, {}, stack);
  }

  // ---- Which answers are possible ----

  lemma {:induction false} NameSetIsListed(s: set<Name>) returns (names: seq<Name>)
    ensures ListsSet(names, s)
    decreases |s|
  {
    if s == {} {
      names := [];
    } else {
      var x :| x in s;
      var rest := NameSetIsListed(s - {x});
      names := [x] + rest;
    }
  }

  /** Some listing of a set takes a given element last. */
  lemma ListedWithLast(s: set<Name>, last: Name) returns (names: seq<Name>)
    requires last in s
    ensures ListsSet(names, s) && names != [] && names[|names| - 1] == last
  {
    var rest := NameSetIsListed(s - {last});
    names := rest + [last];
  }

  /** An order that takes the next node of the walk last, at every node of the walk, so that it is popped first. */
  ghost predicate Follows(order: Order, p: seq<Name>) {
    forall i {:trigger FollowsAt(order, p, i)} :: 0 <= i < |p| - 1 ==> FollowsAt(order, p, i)
  }

  ghost predicate FollowsAt(order: Order, p: seq<Name>, i: nat)
    requires i < |p| - 1
  {
    p[i] in order && order[p[i]] != [] && order[p[i]][|order[p[i]]| - 1] == p[i + 1]
  }

  ghost predicate Simple(p: seq<Name>) {
    forall i, j :: 0 <= i < j < |p| ==> p[i] != p[j]
  }

  lemma {:induction false} OrderExists(adj: Adjacency, nodes: set<Name>, p: seq<Name>) returns (order: Order)
    requires nodes <= adj.Keys && Walk(adj, p) && Simple(p[..|p| - 1])
    ensures order.Keys == nodes && forall a :: a in nodes ==> ListsSet(order[a], adj[a])
    ensures forall i :: 0 <= i < |p| - 1 && p[i] in nodes ==> FollowsAt(order, p, i)
    decreases |nodes|
  {
    if nodes == {} {
      order := map[];
    } else {
      var a :| a in nodes;
      var rest := OrderExists(adj, nodes - {a}, p);
      var names: seq<Name>;
      if i :| 0 <= i < |p| - 1 && p[i] == a {
        assert HasEdge(adj, p[i], p[i + 1]);
        names := ListedWithLast(adj[a], p[i + 1]);
        assert forall j :: 0 <= j < |p| - 1 && p[j] == a ==> p[..|p| - 1][j] == p[..|p| - 1][i];
      } else {
        names := NameSetIsListed(adj[a]);
      }
      order := rest[a := names];
      forall i | 0 <= i < |p| - 1 && p[i] in nodes
        ensures FollowsAt(order, p, i)
      {
        assert p[i] != a ==> FollowsAt(rest, p, i);
      }
    }
  }

  /** A search that has followed a walk so far follows it to its end. */
  lemma {:induction false} SearchFollows(
    order: Order, start: Name, target: Name, maxDepth: nat, p: seq<Name>, k: nat, visited: set<Name>, below: Stack)
    requires k < |p| <= maxDepth + 1
    requires Follows(order, p) && Simple(p[..|p| - 1]) && Avoids(p[..|p| - 1], target)
    requires visited == set i | 0 <= i < k :: p[i]
    requires p[|p| - 1] == target || |p| - 1 == maxDepth
    ensures Search(order, start, target, maxDepth, visited, below + [(p[k], k)]) ==
            if p[|p| - 1] == target then Err(CycleDetected(target, start)) else Err(DepthExceeded(maxDepth, maxDepth))
    decreases |p| - k
  {
    var stack := below + [(p[k], k)];
    assert stack[..|stack| - 1] == below && stack[|stack| - 1] == (p[k], k);
    if k < |p| - 1 {
      assert p[..|p| - 1][k] == p[k];
      forall i | 0 <= i < k ensures p[i] != p[k] {
        assert p[..|p| - 1][i] == p[i];
      }
      assert FollowsAt(order, p, k);
      var names := order[p[k]];
      var pushed := Pushed(below, names, k + 1);
      assert pushed == pushed[..|pushed| - 1] + [(p[k + 1], k + 1)];
      SearchFollows(order, start, target, maxDepth, p, k + 1, visited + {p[k]}, pushed[..|pushed| - 1]);
    }
  }

  /** For every walk that repeats no node before its end and meets the target at most there, some order makes the search
      follow it: to the target, or to the maximal depth. */
  lemma WalkIsFollowed(adj: Adjacency, start: Name, target: Name, maxDepth: nat, p: seq<Name>) returns (order: Order)
    requires Walk(adj, p) && p[0] == start && Simple(p[..|p| - 1]) && Avoids(p[..|p| - 1], target)
    requires |p| - 1 <= maxDepth && (p[|p| - 1] == target || |p| - 1 == maxDepth)
    ensures Lists(order, adj)
    ensures Answer(order, start, target, maxDepth) ==
            if p[|p| - 1] == target then Err(CycleDetected(target, start)) else Err(DepthExceeded(maxDepth, maxDepth))
  {
    order := OrderExists(adj, adj.Keys, p);
    forall i | 0 <= i < |p| - 1
      ensures FollowsAt(order, p, i)
    {
      assert HasEdge(adj, p[i], p[i + 1]);
    }
    SearchFollows(order, start, target, maxDepth, p, 0, {}, []);
    assert [] + [(p[0], 0)] == [(start, 0)];
  }

  /** Part of a walk is a walk. */
  lemma WalkPart(adj: Adjacency, p: seq<Name>, i: nat, j: nat)
    requires Walk(adj, p) && i <= j < |p|
    ensures WalkOf(adj, p[i], p[j], j - i)
  {
    var q := p[i..j + 1];
    forall m | 0 <= m < |q| - 1
      ensures HasEdge(adj, q[m], q[m + 1])
    {
      assert HasEdge(adj, p[i + m], p[i + m + 1]);
    }
    assert Walk(adj, q) && q[j - i] == p[j];
  }

  lemma AcyclicWalksAreSimple(adj: Adjacency, p: seq<Name>)
    requires Acyclic(adj) && Walk(adj, p)
    ensures Simple(p) && Simple(p[..|p| - 1])
  {
    forall i, j | 0 <= i < j < |p|
      ensures p[i] != p[j]
    {
      WalkPart(adj, p, i, j);
      assert j - i > 0;
    }
  }

  /** In a graph without cycles, exceeding the depth is a possible answer exactly when some walk of `maxDepth` edges
      leaves `start` without meeting the target. */
  lemma DepthExceededIsPossibleIff(adj: Adjacency, start: Name, target: Name, maxDepth: nat)
    requires Acyclic(adj)
    ensures HasLongClearWalk(adj, target, start, maxDepth) <==>
            exists order :: Lists(order, adj) &&
              Answer(order, start, target, maxDepth) == Err(DepthExceeded(maxDepth, maxDepth))
  {
    if HasLongClearWalk(adj, target, start, maxDepth) {
      var b :| b != target && ClearWalkOf(adj, target, start, b, maxDepth);
      var p :| Leads(adj, p, start, b, maxDepth) && Avoids(p[..maxDepth], target);
      AcyclicWalksAreSimple(adj, p);
      var order := WalkIsFollowed(adj, start, target, maxDepth, p);
    }
    if order :| Lists(order, adj) && Answer(order, start, target, maxDepth) == Err(DepthExceeded(maxDepth, maxDepth)) {
      AnswerMeans(adj, order, start, target, maxDepth);
    }
  }

  /** Likewise a cycle can be reported exactly when a walk of at most `maxDepth` edges leads to the target. */
  lemma CycleDetectedIsPossibleIff(adj: Adjacency, start: Name, target: Name, maxDepth: nat)
    requires Acyclic(adj)
    ensures HasShortWalk(adj, start, target, maxDepth) <==>
            exists order :: Lists(order, adj) &&
              Answer(order, start, target, maxDepth) == Err(CycleDetected(target, start))
  {
    if HasShortWalk(adj, start, target, maxDepth) {
      var m: nat :| m <= maxDepth && ClearWalkOf(adj, target, start, target, m);
      var p :| Leads(adj, p, start, target, m) && Avoids(p[..m], target);
      AcyclicWalksAreSimple(adj, p);
      var order := WalkIsFollowed(adj, start, target, maxDepth, p);
    }
    if order :| Lists(order, adj) && Answer(order, start, target, maxDepth) == Err(CycleDetected(target, start)) {
      AnswerMeans(adj, order, start, target, maxDepth);
    }
  }

  // A graph on which both errors are possible: one edge to the target, and a chain of `n` edges beside it whose
  // nodes are named by zeros.

  const ASIDE: Name := [1]

  function LinksBelow(n: nat): set<Name> {
    set i | 0 <= i < n :: Zeros(i)
  }

  function Fork(n: nat): Adjacency {
    map x | x in LinksBelow(n) :: if x == [] then {Zeros(1), ASIDE} else {Zeros(|x| + 1)}
  }

  lemma {:induction false} NamesGrow(n: nat, p: seq<Name>, k: nat)
    requires Walk(Fork(n), p) && k < |p|
    ensures |p[k]| == |p[0]| + k
  {
    if k > 0 {
      NamesGrow(n, p, k - 1);
      assert HasEdge(Fork(n), p[k - 1], p[k - 1 + 1]);
    }
  }

  lemma ForkIsAcyclic(n: nat)
    ensures Acyclic(Fork(n))
  {
    forall a, m: nat | m > 0
      ensures !WalkOf(Fork(n), a, a, m)
    {
      if WalkOf(Fork(n), a, a, m) {
        var p :| Walk(Fork(n), p) && |p| == m + 1 && p[0] == a && p[m] == a;
        NamesGrow(n, p, m);
        assert false;
      }
    }
  }

  lemma LinkLeadsOn(n: nat, i: nat)
    requires i < n
    ensures HasEdge(Fork(n), Zeros(i), Zeros(i + 1)) && Zeros(i) != ASIDE
  {
    assert Zeros(i) in LinksBelow(n);
    assert Zeros(1)[0] == 0;
  }

  lemma ForkHasLongWalk(n: nat)
    requires n >= 1
    ensures HasLongClearWalk(Fork(n), ASIDE, Zeros(0), n)
  {
    var adj := Fork(n);
    var p := seq(n + 1, i requires 0 <= i <= n => Zeros(i));
    forall i | 0 <= i < |p| - 1
      ensures HasEdge(adj, p[i], p[i + 1]) && p[i] != ASIDE
    {
      LinkLeadsOn(n, i);
    }
    assert Zeros(n)[0] == 0;
    assert Leads(adj, p, Zeros(0), Zeros(n), n) && Avoids(p[..n], ASIDE);
    assert ClearWalkOf(adj, ASIDE, Zeros(0), Zeros(n), n);
  }

  lemma ForkHasShortWalk(n: nat)
    requires n >= 1
    ensures HasShortWalk(Fork(n), Zeros(0), ASIDE, n)
  {
    var adj := Fork(n);
    var q := [Zeros(0), ASIDE];
    assert Zeros(0) in LinksBelow(n) && HasEdge(adj, q[0], q[1]);
    assert Leads(adj, q, Zeros(0), ASIDE, 1) && Avoids(q[..1], ASIDE);
    assert ClearWalkOf(adj, ASIDE, Zeros(0), ASIDE, 1);
  }

  /** The answer can depend on the order of neighbours, at every depth: on one graph without cycles one order reports a
      cycle, and another one that the depth is exceeded. */
  lemma AnswerDependsOnOrder(maxDepth: nat) returns (one: Order, other: Order)
    requires maxDepth >= 1
    ensures Acyclic(Fork(maxDepth)) && Lists(one, Fork(maxDepth)) && Lists(other, Fork(maxDepth))
    ensures Answer(one, Zeros(0), ASIDE, maxDepth) == Err(CycleDetected(ASIDE, Zeros(0)))
    ensures Answer(other, Zeros(0), ASIDE, maxDepth) == Err(DepthExceeded(maxDepth, maxDepth))
  {
    ForkIsAcyclic(maxDepth);
    ForkHasLongWalk(maxDepth);
    ForkHasShortWalk(maxDepth);
    DepthExceededIsPossibleIff(Fork(maxDepth), Zeros(0), ASIDE, maxDepth);
    CycleDetectedIsPossibleIff(Fork(maxDepth), Zeros(0), ASIDE, maxDepth);
    one :| Lists(one, Fork(maxDepth)) && Answer(one, Zeros(0), ASIDE, maxDepth) == Err(CycleDetected(ASIDE, Zeros(0)));
    other :|
      && Lists(other, Fork(maxDepth))
      && Answer(other, Zeros(0), ASIDE, maxDepth) == Err(DepthExceeded(maxDepth, maxDepth));
  }

  /** The loop that pushes a node's neighbours. */
  method PushNeighbors(names: seq<Name>, depth: nat, stack: Stack) returns (pushed: Stack)
    ensures pushed == Pushed(stack, names, depth)
  {
    pushed := stack;
    for i := 0 to |names|
      invariant pushed == Pushed(stack, names[..i], depth)
    {
      pushed := pushed + [(names[i], depth)];
    }
    assert names[..|names|] == names;
  }

  /** `check_no_path_within_depth`, for a given order of neighbours. */
  method CheckNoPathWithinDepth(ghost adj: Adjacency, order: Order, start: Name, target: Name, maxDepth: nat)
    returns (r: Result<(), DelegationError>)
    requires Lists(order, adj)
    ensures r == Answer(order, start, target, maxDepth)
    ensures Means(adj, start, target, maxDepth, r)
    ensures !HasLongClearWalk(adj, target, start, maxDepth) ==> (r.Ok? <==> !Reaches(adj, start, target))
  {
    r := SearchDepthFirst(order, start, target, maxDepth);
    AnswerMeans(adj, order, start, target, maxDepth);
    if HasShortWalk(adj, start, target, maxDepth) {
      ShortWalkReaches(adj, start, target, maxDepth);
    }
  }

  /** The loop of the search. */
  method SearchDepthFirst(order: Order, start: Name, target: Name, maxDepth: nat)
    returns (r: Result<(), DelegationError>)
    ensures r == Answer(order, start, target, maxDepth)
  {
    var visited: set<Name> := {};
    var stack: Stack := [(start, 0)];
    r := Ok(());
    while stack != []
      invariant Search(order, start, target, maxDepth, visited, stack) == Answer(order, start, target, maxDepth)
      decreases order.Keys - visited, |stack|
    {
      var (node, depth) := stack[|stack| - 1];
      stack := stack[..|stack| - 1];
      if node == target {
        return Err(CycleDetected(target, start));
      }
      if depth >= maxDepth {
        return Err(DepthExceeded(depth, maxDepth));
      }
      if node !in visited {
        if node in order {
          assert node in order.Keys - visited;
          stack := PushNeighbors(order[node], depth + 1, stack);
        } else {
          assert order.Keys - (visited + {node}) == order.Keys - visited;
        }
        visited := visited + {node};
      }
    }
  }

  // ---- Stake totals ----

  ghost function EdgesTo(edges: map<Edge, Delegation>, representative: Name): set<Edge> {
    set e | e in edges && edges[e].representative == representative
  }

  ghost function AmountIn(edges: map<Edge, Delegation>): Edge -> int {
    (e: Edge) => if e in edges then edges[e].amount else 0
  }

  /** The stake delegated to a representative, saturated, in whatever order the edges are taken. */
  ghost function StakeOf(edges: map<Edge, Delegation>, representative: Name): u64 {
    Sums.ClampedSum(EdgesTo(edges, representative), AmountIn(edges))
  }

  /** A table of totals accounts for the given edges. */
  ghost predicate Summed(edges: map<Edge, Delegation>, done: set<Edge>, totals: map<Name, u64>) {
    forall r {:trigger SummedFor(edges, done, totals, r)} :: SummedFor(edges, done, totals, r)
  }

  ghost predicate SummedFor(edges: map<Edge, Delegation>, done: set<Edge>, totals: map<Name, u64>, r: Name) {
    && (r in totals <==> EdgesTo(edges, r) * done != {})
    && Sums.ClampedSum(EdgesTo(edges, r) * done, AmountIn(edges)) == if r in totals then totals[r] else 0
  }
  lemma SummedStep(edges: map<Edge, Delegation>, done: set<Edge>, totals: map<Name, u64>, e: Edge)
    requires Summed(edges, done, totals) && e in edges && e !in done
    ensures var r := edges[e].representative;
      Summed(edges, done + {e}, totals[r := SatAdd(if r in totals then totals[r] else 0, edges[e].amount)])
  {
    var rep := edges[e].representative;
    var totals' := totals[rep := SatAdd(if rep in totals then totals[rep] else 0, edges[e].amount)];
    forall r
      ensures SummedFor(edges, done + {e}, totals', r)
    {
      assert SummedFor(edges, done, totals, r);
      if r == rep {
        assert EdgesTo(edges, r) * (done + {e}) == EdgesTo(edges, r) * done + {e};
        Sums.SaturatingFoldStep(EdgesTo(edges, r) * done, e, AmountIn(edges));
      } else {
        assert EdgesTo(edges, r) * (done + {e}) == EdgesTo(edges, r) * done;
      }
    }
  }

  // ---- Revocations ----

  /** Ed25519 verification, taken as given: public key, message, signature. */
  type Verifier = (Bytes32, Bytes, Bytes) -> bool

  predicate Verified(v: Verifier, rev: Revocation) {
    v(rev.delegatorKey, rev.CanonicalBytes(), rev.signature)
  }

  /** Two revocations sign the same bytes exactly when they agree on key, nonce and the two names put together; so
      they revoke one edge exactly when their delegators are equally long. */
  lemma RevocationsSignTheSameIff(a: Revocation, b: Revocation)
    ensures a.CanonicalBytes() == b.CanonicalBytes() <==>
      && a.delegatorKey == b.delegatorKey && a.nonce == b.nonce
      && a.delegator + a.representative == b.delegator + b.representative
    ensures a.CanonicalBytes() == b.CanonicalBytes() ==>
      (a.delegator == b.delegator && a.representative == b.representative <==> |a.delegator| == |b.delegator|)
  {
    var x, y := a.CanonicalBytes(), b.CanonicalBytes();
    var d := |DELEGATION_REVOCATION_DOMAIN|;
    var ab, bb := a.delegator + a.representative, b.delegator + b.representative;
    SignedParts(a);
    SignedParts(b);
    if x == y {
      assert |ab| == |bb|;
      Le8IsInjective(a.nonce, b.nonce);
      if |a.delegator| == |b.delegator| {
        assert a.delegator == ab[..|a.delegator|] == bb[..|b.delegator|] == b.delegator;
        assert a.representative == ab[|a.delegator|..] == bb[|b.delegator|..] == b.representative;
      }
    } else {
      assert x == DELEGATION_REVOCATION_DOMAIN + a.delegatorKey + ab + Le8(a.nonce);
      assert y == DELEGATION_REVOCATION_DOMAIN + b.delegatorKey + bb + Le8(b.nonce);
    }
  }

  lemma SignedParts(a: Revocation)
    ensures var x := a.CanonicalBytes();
      var d := |DELEGATION_REVOCATION_DOMAIN|;
      var n := |a.delegator| + |a.representative|;
      && |x| == d + 32 + n + 8
      && x[d..d + 32] == a.delegatorKey
      && x[d + 32..d + 32 + n] == a.delegator + a.representative
      && x[d + 32 + n..] == Le8(a.nonce)
  {
  }

  /** The order in which the sets of neighbours happen to be iterated over. */
  method IterationOrder(adj: Adjacency) returns (order: Order)
    ensures Lists(order, adj)
  {
    order := map[];
    var todo := adj.Keys;
    while todo != {}
      invariant todo <= adj.Keys && order.Keys == adj.Keys - todo
      invariant forall a :: a in order ==> ListsSet(order[a], adj[a])
      decreases todo
    {
      var a :| a in todo;
      var names := IterationOrderOf(adj[a]);
      order := order[a := names];
      todo := todo - {a};
    }
  }

  method IterationOrderOf(s: set<Name>) returns (names: seq<Name>)
    ensures ListsSet(names, s)
  {
    names := [];
    var todo := s;
    while todo != {}
      invariant todo <= s && ListsSet(names, s - todo)
      decreases todo
    {
      var x :| x in todo;
      names := names + [x];
      todo := todo - {x};
    }
  }

  /** The graph with its two maps updated in place. */
  class DelegationGraph {
    const verifier: Verifier
    var edges: map<Edge, Delegation>
    var adjacency: Adjacency

    ghost function View(): Graph
      reads this
    {
      Graph(edges, adjacency)
    }

    ghost predicate Valid()
      reads this
    {
      Sound(View())
    }

    constructor (v: Verifier)
      ensures Valid() && verifier == v && View() == EMPTY_GRAPH
    {
      verifier := v;
      edges := map[];
      adjacency := map[];
      EveryReachableGraphIsSound([EMPTY_GRAPH], 0);
    }

    method Delegate(d: Delegation) returns (r: Result<(), DelegationError>)
      requires Valid()
      modifies this
      ensures Valid()
      ensures r.Ok? ==> Delegates(old(View()), d, View())
      ensures r.Err? ==> View() == old(View())
      ensures r == Err(SelfDelegation) <==> d.delegator == d.representative
      ensures EdgeOf(d) in old(edges) && d.delegator != d.representative ==> r.Ok?
      ensures r.Err? && !r.error.SelfDelegation? ==>
        Means(old(adjacency), d.representative, d.delegator, MAX_DELEGATION_DEPTH, r)
      ensures EdgeOf(d) !in old(edges) && WithinDepth(old(adjacency), d) ==>
        (r.Ok? <==> d.delegator != d.representative && !Reaches(old(adjacency), d.representative, d.delegator))
    {
      if d.delegator == d.representative {
        return Err(SelfDelegation);
      }
      var key := Edge(d.delegator, d.representative);
      if key in edges {
        ghost var g := View();
        edges := edges[key := d];
        DelegateKeepsSound(g, d, View());
        return Ok(());
      }
      var order := IterationOrder(adjacency);
      var check := CheckNoPathWithinDepth(adjacency, order, d.representative, d.delegator, MAX_DELEGATION_DEPTH);
      if check.Err? {
        return check;
      }
      ghost var g := View();
      adjacency := adjacency[d.delegator :=
        (if d.delegator in adjacency then adjacency[d.delegator] else {}) + {d.representative}];
      edges := edges[key := d];
      DelegateKeepsSound(g, d, View());
      r := Ok(());
    }

    method Revoke(rev: Revocation) returns (r: Result<(), DelegationError>)
      requires Valid()
      modifies this
      ensures Valid()
      ensures r.Ok? <==> Verified(verifier, rev) && Edge(rev.delegator, rev.representative) in old(edges)
      ensures r.Ok? ==> Revokes(old(View()), Edge(rev.delegator, rev.representative), View())
      ensures r.Err? ==> View() == old(View())
      ensures r.Err? && !Verified(verifier, rev) ==> r.error == InvalidRevocationSignature
      ensures r.Err? && Verified(verifier, rev) ==> r.error == EdgeNotFound(rev.delegator, rev.representative)
    {
      if !Verified(verifier, rev) {
        return Err(InvalidRevocationSignature);
      }
      var key := Edge(rev.delegator, rev.representative);
      if key !in edges {
        return Err(EdgeNotFound(rev.delegator, rev.representative));
      }
      ghost var g := View();
      assert HasEdge(adjacency, rev.delegator, rev.representative);
      edges := edges - {key};
      if rev.delegator in adjacency {
        var neighbors := adjacency[rev.delegator] - {rev.representative};
        adjacency := adjacency[rev.delegator := neighbors];
        if neighbors == {} {
          adjacency := adjacency - {rev.delegator};
        }
      }
      assert adjacency == WithoutEdge(g.adjacency, rev.delegator, rev.representative);
      RevokeKeepsSound(g, key, View());
      r := Ok(());
    }

    method TotalForRepresentative(representative: Name) returns (total: u64)
      ensures total == StakeOf(edges, representative)
    {
      total := 0;
      var todo := edges.Keys;
      assert EdgesTo(edges, representative) - todo == {};
      while todo != {}
        invariant todo <= edges.Keys
        invariant total == Sums.ClampedSum(EdgesTo(edges, representative) - todo, AmountIn(edges))
        decreases todo
      {
        var e :| e in todo;
        ghost var mine := EdgesTo(edges, representative);
        if edges[e].representative == representative {
          Sums.SaturatingFoldStep(mine - todo, e, AmountIn(edges));
          assert mine - (todo - {e}) == mine - todo + {e};
          total := SatAdd(total, edges[e].amount);
        } else {
          assert mine - (todo - {e}) == mine - todo;
        }
        todo := todo - {e};
      }
      assert EdgesTo(edges, representative) - todo == EdgesTo(edges, representative);
    }

    /** An immutable copy of the totals of all representatives; one that is absent has no stake. */
    method Snapshot() returns (totals: map<Name, u64>)
      ensures forall r :: r in totals <==> EdgesTo(edges, r) != {}
      ensures forall r :: StakeOf(edges, r) == if r in totals then totals[r] else 0
    {
      totals := map[];
      var todo := edges.Keys;
      while todo != {}
        invariant todo <= edges.Keys
        invariant Summed(edges, edges.Keys - todo, totals)
        decreases todo
      {
        var e :| e in todo;
        var representative := edges[e].representative;
        SummedStep(edges, edges.Keys - todo, totals, e);
        var entry := if representative in totals then totals[representative] else 0;
        totals := totals[representative := SatAdd(entry, edges[e].amount)];
        assert edges.Keys - (todo - {e}) == edges.Keys - todo + {e};
        todo := todo - {e};
      }
      assert edges.Keys - todo == edges.Keys;
      forall r
        ensures r in totals <==> EdgesTo(edges, r) != {}
        ensures StakeOf(edges, r) == if r in totals then totals[r] else 0
      {
        assert EdgesTo(edges, r) * edges.Keys == EdgesTo(edges, r);
        assert SummedFor(edges, edges.Keys, totals, r);
      }
    }
  }
}
