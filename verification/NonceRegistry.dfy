/** The nonce registry: which block hash claimed each account and nonce, its merge and its comparison. */
module NonceRegistry {
  import Ordering
  import opened Bytes

  datatype NonceKey = NonceKey(account: Bytes32, nonce: nat)

  predicate NonceLe(x: NonceKey, y: NonceKey) {
    if x.account == y.account then x.nonce <= y.nonce else Ordering.LexLe(x.account, y.account)
  }

  lemma NonceOrder()
    ensures Ordering.TotalOrder(NonceLe)
  {
    forall x: NonceKey, y: NonceKey
      ensures NonceLe(x, y) || NonceLe(y, x)
      ensures NonceLe(x, y) && NonceLe(y, x) ==> x == y
    {
      Ordering.LexTotal(x.account, y.account);
    }
    forall x: NonceKey, y: NonceKey, z: NonceKey | NonceLe(x, y) && NonceLe(y, z)
      ensures NonceLe(x, z)
    {
      Ordering.LexTotal(x.account, y.account);
      Ordering.LexTotal(y.account, z.account);
      if x.account != y.account && y.account != z.account {
        Ordering.LexTransitive(x.account, y.account, z.account);
      }
    }
  }

  /** Entries are in order by the first difference of their accounts' bytes, and by nonce under one account. */
  lemma NonceLeMeans(x: NonceKey, y: NonceKey)
    ensures NonceLe(x, y) <==>
      if x.account == y.account then x.nonce <= y.nonce
      else exists i: nat :: Ordering.DiffersFirstAt(x.account, y.account, i)
  {
    Ordering.FirstDifferenceDecides(x.account, y.account);
  }

  type Registry = map<NonceKey, Bytes32>

  datatype NonceConflict = NonceConflict(key: NonceKey, localHash: Bytes32, remoteHash: Bytes32)

  datatype SyncResult = Success | Mismatch(count: nat) | NoNeighbors

  /** A set of keys in the order in which the registry iterates over them. */
  ghost function SortedNonceKeys(keys: set<NonceKey>): seq<NonceKey> {
    NonceOrder();
    Ordering.Ascending(keys, NonceLe)
  }

  predicate IsLeastNonceKey(keys: set<NonceKey>, k: NonceKey) {
    k in keys && forall x :: x in keys ==> NonceLe(k, x)
  }

  lemma LeastNonceKeyExists(keys: set<NonceKey>)
    requires keys != {}
    ensures exists k :: k in keys && IsLeastNonceKey(keys, k)
  {
    NonceOrder();
    assert IsLeastNonceKey(keys, Ordering.Least(keys, NonceLe));
  }

  lemma LeastNonceKeyFirst(keys: set<NonceKey>, k: NonceKey)
    requires IsLeastNonceKey(keys, k)
    ensures SortedNonceKeys(keys) == [k] + SortedNonceKeys(keys - {k})
  {
    NonceOrder();
    assert Ordering.Least(keys, NonceLe) == k;
  }

  /** The keys on which two registries hold different hashes. */
  function Disagreeing(a: Registry, b: Registry): set<NonceKey> {
    set k | k in a && k in b && a[k] != b[k]
  }

  /** The conflicts of a merge, in key order. */
  ghost function ConflictsBetween(local: Registry, remote: Registry): seq<NonceConflict> {
    ConflictRecords(local, remote, SortedNonceKeys(Disagreeing(local, remote)))
  }

  ghost function ConflictRecords(local: Registry, remote: Registry, keys: seq<NonceKey>): (r: seq<NonceConflict>)
    ensures |r| <= |keys|
  {
    if keys == [] then
      []
    else
      ConflictRecords(local, remote, keys[..|keys| - 1]) +
      (var k := keys[|keys| - 1]; if k in local && k in remote then [NonceConflict(k, local[k], remote[k])] else [])
  }

  /** Every disagreeing key yields one conflict, and nothing else does. */
  lemma {:induction false} RecordsMatchKeys(local: Registry, remote: Registry, keys: seq<NonceKey>)
    requires forall k :: k in keys ==> k in local && k in remote
    ensures var r := ConflictRecords(local, remote, keys);
      |r| == |keys| && forall i :: 0 <= i < |r| ==> r[i] == NonceConflict(keys[i], local[keys[i]], remote[keys[i]])
  {
    if keys != [] {
      RecordsMatchKeys(local, remote, keys[..|keys| - 1]);
    }
  }

  /** The conflicts returned by a merge are exactly the disagreeing keys, each once, in ascending order. */
  lemma ConflictsAreTheDisagreements(local: Registry, remote: Registry)
    ensures var r := ConflictsBetween(local, remote);
      && |r| == |Disagreeing(local, remote)|
      && (forall i :: 0 <= i < |r| ==> r[i].key in Disagreeing(local, remote) &&
                                       r[i] == NonceConflict(r[i].key, local[r[i].key], remote[r[i].key]))
      && (forall i, j :: 0 <= i < j < |r| ==> NonceLe(r[i].key, r[j].key) && r[i].key != r[j].key)
  {
    NonceOrder();
    Ordering.AscendingIsSorted(Disagreeing(local, remote), NonceLe);
    RecordsMatchKeys(local, remote, SortedNonceKeys(Disagreeing(local, remote)));
  }

  lemma DisagreementsStep(local: Registry, remote: Registry, todo: set<NonceKey>, k: NonceKey)
    requires IsLeastNonceKey(todo, k) && k in remote
    ensures var d := Disagreeing(local, remote);
      SortedNonceKeys(d * todo) == (if k in d then [k] else []) + SortedNonceKeys(d * (todo - {k}))
  {
    var d := Disagreeing(local, remote);
    if k in d {
      LeastNonceKeyFirst(d * todo, k);
      assert d * todo - {k} == d * (todo - {k});
    } else {
      assert d * todo == d * (todo - {k});
      assert [] + SortedNonceKeys(d * todo) == SortedNonceKeys(d * todo);
    }
  }

  /** The conflicts so far, followed by those still to come, are all conflicts. */
  ghost predicate ConflictsSoFar(
    local: Registry, remote: Registry, todo: set<NonceKey>, keys: seq<NonceKey>, conflicts: seq<NonceConflict>)
  {
    var d := Disagreeing(local, remote);
    && keys + SortedNonceKeys(d * todo) == SortedNonceKeys(d)
    && conflicts == ConflictRecords(local, remote, keys)
  }

  lemma ConflictsStep(
    local: Registry, remote: Registry, todo: set<NonceKey>, keys: seq<NonceKey>, conflicts: seq<NonceConflict>,
    k: NonceKey)
    requires ConflictsSoFar(local, remote, todo, keys, conflicts) && IsLeastNonceKey(todo, k) && k in remote
    ensures k in Disagreeing(local, remote) ==>
      ConflictsSoFar(local, remote, todo - {k}, keys + [k], conflicts + [NonceConflict(k, local[k], remote[k])])
    ensures k !in Disagreeing(local, remote) ==> ConflictsSoFar(local, remote, todo - {k}, keys, conflicts)
  {
    DisagreementsStep(local, remote, todo, k);
    assert (keys + [k])[..|keys|] == keys;
  }

  lemma OneMoreMerged(local: Registry, remote: Registry, todo: set<NonceKey>, k: NonceKey)
    requires k in todo && k in remote
    ensures (remote - (todo - {k})) + local ==
      (var merged := (remote - todo) + local; if k in local then merged else merged[k := remote[k]])
    ensures k in (remote - todo) + local <==> k in local
    ensures k in local ==> ((remote - todo) + local)[k] == local[k]
  {
  }

  /** `merge_nonce_registries`: unknown entries are taken over, and an entry already held is never overwritten. */
  method MergeNonceRegistries(local: Registry, remote: Registry)
    returns (merged: Registry, conflicts: seq<NonceConflict>)
    ensures merged == remote + local
    ensures conflicts == ConflictsBetween(local, remote)
  {
    merged := local;
    conflicts := [];
    var todo := remote.Keys;
    ghost var keys: seq<NonceKey> := [];
    assert Disagreeing(local, remote) * todo == Disagreeing(local, remote);
    while todo != {}
      invariant todo <= remote.Keys
      invariant merged == (remote - todo) + local
      invariant ConflictsSoFar(local, remote, todo, keys, conflicts)
      decreases todo
    {
      LeastNonceKeyExists(todo);
      var k :| k in todo && IsLeastNonceKey(todo, k);
      ConflictsStep(local, remote, todo, keys, conflicts, k);
      if k in merged {
        if merged[k] != remote[k] {
          conflicts := conflicts + [NonceConflict(k, merged[k], remote[k])];
          keys := keys + [k];
        }
      } else {
        merged := merged[k := remote[k]];
      }
      OneMoreMerged(local, remote, todo, k);
      todo := todo - {k};
    }
    AllConflicts(local, remote, todo, keys, conflicts);
    assert remote - {} == remote;
  }

  lemma AllConflicts(
    local: Registry, remote: Registry, todo: set<NonceKey>, keys: seq<NonceKey>, conflicts: seq<NonceConflict>)
    requires ConflictsSoFar(local, remote, todo, keys, conflicts) && todo == {}
    ensures conflicts == ConflictsBetween(local, remote)
  {
    assert Disagreeing(local, remote) * todo == {};
    assert keys + SortedNonceKeys({}) == keys;
  }

  /** The local entries a remote registry does not confirm. */
  function Unconfirmed(local: Registry, remote: Registry): set<NonceKey> {
    set k | k in local && !(k in remote && remote[k] == local[k])
  }

  function SyncOutcome(local: Registry, remote: Registry): SyncResult {
    if remote == map[] then
      NoNeighbors
    else
      var mismatches := |Unconfirmed(local, remote)| + |remote.Keys - local.Keys|;
      if mismatches == 0 then Success else Mismatch(mismatches)
  }

  /** Taking one element off the list of those still to be looked at. */
  lemma OneLookedAt(bad: set<NonceKey>, todo: set<NonceKey>, k: NonceKey)
    requires k in todo
    ensures |bad - (todo - {k})| == |bad - todo| + (if k in bad then 1 else 0)
  {
    if k in bad {
      assert bad - (todo - {k}) == bad - todo + {k};
    } else {
      assert bad - (todo - {k}) == bad - todo;
    }
  }

  method CountUnconfirmed(local: Registry, remote: Registry) returns (mismatches: nat)
    ensures mismatches == |Unconfirmed(local, remote)|
  {
    mismatches := 0;
    ghost var bad := Unconfirmed(local, remote);
    var todo := local.Keys;
    assert bad - todo == {};
    while todo != {}
      invariant todo <= local.Keys && mismatches == |bad - todo|
      decreases todo
    {
      var k :| k in todo;
      OneLookedAt(bad, todo, k);
      if !(k in remote && remote[k] == local[k]) {
        mismatches := mismatches + 1;
      }
      todo := todo - {k};
    }
    assert bad - todo == bad;
  }

  method CountMissing(local: Registry, remote: Registry) returns (mismatches: nat)
    ensures mismatches == |remote.Keys - local.Keys|
  {
    mismatches := 0;
    ghost var missing := remote.Keys - local.Keys;
    var todo := remote.Keys;
    assert missing - todo == {};
    while todo != {}
      invariant todo <= remote.Keys && mismatches == |missing - todo|
      decreases todo
    {
      var k :| k in todo;
      OneLookedAt(missing, todo, k);
      if k !in local {
        mismatches := mismatches + 1;
      }
      todo := todo - {k};
    }
    assert missing - todo == missing;
  }

  /** `sync_nonces_before_l1`: mismatches are counted in two passes. */
  method SyncNoncesBeforeL1(local: Registry, remote: Registry) returns (r: SyncResult)
    ensures r == SyncOutcome(local, remote)
  {
    if remote == map[] {
      return NoNeighbors;
    }
    var unconfirmed := CountUnconfirmed(local, remote);
    var missing := CountMissing(local, remote);
    var mismatches := unconfirmed + missing;
    r := if mismatches == 0 then Success else Mismatch(mismatches);
  }

  lemma MergedMaps(a: Registry, b: Registry)
    ensures (b + a).Keys == a.Keys + b.Keys
    ensures (forall k :: k in a ==> (b + a)[k] == a[k]) && (forall k :: k in b - a.Keys ==> (b + a)[k] == b[k])
  {
  }

  lemma UnconfirmedAfterMerge(a: Registry, b: Registry)
    ensures Unconfirmed(b + a, a + b) == Disagreeing(a, b)
    ensures (a + b).Keys - (b + a).Keys == {}
    ensures a + b == map[] <==> a == map[] && b == map[]
  {
    MergedMaps(a, b);
    MergedMaps(b, a);
    if a + b == map[] {
      assert a.Keys == {} && b.Keys == {};
    }
  }

  /** After two registries merge each other, both know all keys, each keeps its own entry where they disagree, and
      synchronisation reports exactly as many mismatches as either merge reported conflicts. */
  lemma MutualMergeThenSync(a: Registry, b: Registry)
    ensures (b + a).Keys == (a + b).Keys == a.Keys + b.Keys
    ensures (forall k :: k in a ==> (b + a)[k] == a[k]) && (forall k :: k in b ==> (a + b)[k] == b[k])
    ensures |ConflictsBetween(a, b)| == |ConflictsBetween(b, a)|
    ensures SyncOutcome(b + a, a + b) ==
      if a == map[] && b == map[] then NoNeighbors
      else if ConflictsBetween(a, b) == [] then Success
      else Mismatch(|ConflictsBetween(a, b)|)
  {
    MergedMaps(a, b);
    MergedMaps(b, a);
    UnconfirmedAfterMerge(a, b);
    ConflictsAreTheDisagreements(a, b);
    ConflictsAreTheDisagreements(b, a);
    assert Disagreeing(a, b) == Disagreeing(b, a);
  }

  /** The keys for which exactly one registry has an entry, or both have different ones. */
  ghost function Differences(a: Registry, b: Registry): set<NonceKey> {
    set k | k in a.Keys + b.Keys && Differ(a, b, k)
  }

  predicate Differ(a: Registry, b: Registry, k: NonceKey) {
    k !in a || k !in b || a[k] != b[k]
  }

  /** Synchronisation with a registry that is not empty counts each difference once, whichever side it is on, and
      succeeds exactly when the registries are equal. */
  lemma SyncCountsDifferences(local: Registry, remote: Registry)
    ensures SyncOutcome(local, remote) ==
      if remote == map[] then NoNeighbors
      else if local == remote then Success
      else Mismatch(|Differences(local, remote)|)
    ensures local != map[] && remote != map[] ==> SyncOutcome(local, remote) == SyncOutcome(remote, local)
  {
    CountedOnce(local, remote);
    CountedOnce(remote, local);
    NoDifferenceIsEqual(local, remote);
    assert Differences(remote, local) == Differences(local, remote);
  }

  lemma CountedOnce(a: Registry, b: Registry)
    ensures |Differences(a, b)| == |Unconfirmed(a, b)| + |b.Keys - a.Keys|
  {
    forall k
      ensures k in Differences(a, b) <==> k in Unconfirmed(a, b) || k in b.Keys - a.Keys
    {
      OneDifference(a, b, k);
    }
    SizeOfParts(Differences(a, b), Unconfirmed(a, b), b.Keys - a.Keys);
  }

  lemma OneDifference(a: Registry, b: Registry, k: NonceKey)
    ensures k in Differences(a, b) <==> k in Unconfirmed(a, b) || k in b.Keys - a.Keys
  {
  }

  lemma SizeOfParts(whole: set<NonceKey>, x: set<NonceKey>, y: set<NonceKey>)
    requires x !! y && forall k :: k in whole <==> k in x || k in y
    ensures |whole| == |x| + |y|
  {
    assert whole == x + y;
  }

  lemma NoDifferenceIsEqual(a: Registry, b: Registry)
    ensures Differences(a, b) == {} <==> a == b
  {
    if Differences(a, b) == {} {
      forall k
        ensures k in a <==> k in b
        ensures k in a && k in b ==> a[k] == b[k]
      {
        assert k !in Differences(a, b);
      }
    }
  }
}
