/** Sums over finite sets, in no particular order. */
module Sums {
  import opened Common

  ghost function SumOver<T>(s: set<T>, f: T -> int): int
    decreases |s|
  {
    if s == {} then
      0
    else
      var x :| x in s;
      f(x) + SumOver(s - {x}, f)
  }

  /** The element taken out first does not matter. */
  lemma {:induction false} SumRemove<T>(s: set<T>, f: T -> int, x: T)
    requires x in s
    ensures SumOver(s, f) == f(x) + SumOver(s - {x}, f)
    decreases |s|
  {
    var y :| y in s && SumOver(s, f) == f(y) + SumOver(s - {y}, f);
    if y != x {
      SumRemove(s - {y}, f, x);
      SumRemove(s - {x}, f, y);
      assert s - {y} - {x} == s - {x} - {y};
    }
  }

  lemma SumAdd<T>(s: set<T>, f: T -> int, x: T)
    requires x !in s
    ensures SumOver(s + {x}, f) == SumOver(s, f) + f(x)
  {
    SumRemove(s + {x}, f, x);
    assert s + {x} - {x} == s;
  }

  lemma SumPair<T>(x: T, y: T, f: T -> int)
    requires x != y
    ensures SumOver({x, y}, f) == f(x) + f(y)
  {
    SumAdd({}, f, x);
    SumAdd({x}, f, y);
    assert {} + {x} == {x} && {x} + {y} == {x, y};
  }

  lemma {:induction false} SumCong<T>(s: set<T>, f: T -> int, g: T -> int)
    requires forall x :: x in s ==> f(x) == g(x)
    ensures SumOver(s, f) == SumOver(s, g)
    decreases |s|
  {
    if s != {} {
      var x :| x in s;
      SumRemove(s, f, x);
      SumRemove(s, g, x);
      SumCong(s - {x}, f, g);
    }
  }

  lemma {:induction false} SumUnion<T>(s: set<T>, t: set<T>, f: T -> int)
    requires s !! t
    ensures SumOver(s + t, f) == SumOver(s, f) + SumOver(t, f)
    decreases |t|
  {
    if t == {} {
      assert s + t == s;
    } else {
      var x :| x in t;
      SumRemove(t, f, x);
      SumUnion(s, t - {x}, f);
      SumRemove(s + t, f, x);
      assert s + t - {x} == s + (t - {x});
    }
  }

  lemma SumSplits<T>(s: set<T>, part: set<T>, f: T -> int)
    requires part <= s
    ensures SumOver(s, f) == SumOver(part, f) + SumOver(s - part, f)
  {
    SumUnion(part, s - part, f);
    assert s == part + (s - part);
  }

  lemma {:induction false} SumNonNegative<T>(s: set<T>, f: T -> int)
    requires forall x :: x in s ==> f(x) >= 0
    ensures SumOver(s, f) >= 0
    decreases |s|
  {
    if s != {} {
      var x :| x in s;
      SumRemove(s, f, x);
      SumNonNegative(s - {x}, f);
    }
  }

  /** A pointwise larger function has a larger sum, and an equal sum only if it is equal everywhere. */
  lemma {:induction false} SumBelow<T>(s: set<T>, f: T -> int, g: T -> int)
    requires forall x :: x in s ==> f(x) <= g(x)
    ensures SumOver(s, f) <= SumOver(s, g)
    ensures SumOver(s, f) == SumOver(s, g) <==> forall x :: x in s ==> f(x) == g(x)
    decreases |s|
  {
    if s != {} {
      var x :| x in s;
      SumRemove(s, f, x);
      SumRemove(s, g, x);
      SumBelow(s - {x}, f, g);
      assert forall y :: y in s <==> y == x || y in s - {x};
    }
  }

  lemma {:induction false} SumConstant<T>(s: set<T>, f: T -> int, c: int)
    requires forall x :: x in s ==> f(x) == c
    ensures SumOver(s, f) == |s| * c
    decreases |s|
  {
    if s != {} {
      var x :| x in s;
      SumRemove(s, f, x);
      SumConstant(s - {x}, f, c);
      assert |s| == |s - {x}| + 1;
      assert |s| * c == |s - {x}| * c + c;
    }
  }

  lemma SumSubset<T>(s: set<T>, t: set<T>, f: T -> int)
    requires s <= t
    requires forall x :: x in t ==> f(x) >= 0
    ensures SumOver(s, f) <= SumOver(t, f)
  {
    assert t == s + (t - s);
    SumUnion(s, t - s, f);
    SumNonNegative(t - s, f);
  }

  /** Inclusion and exclusion for two sets. */
  lemma SumInclusionExclusion<T>(s: set<T>, t: set<T>, f: T -> int)
    ensures SumOver(s, f) + SumOver(t, f) == SumOver(s + t, f) + SumOver(s * t, f)
  {
    assert s + t == s + (t - s);
    SumUnion(s, t - s, f);
    assert t == (s * t) + (t - s);
    SumUnion(s * t, t - s, f);
  }

  lemma {:induction false} SumZero<T>(s: set<T>, f: T -> int)
    requires forall x :: x in s ==> f(x) == 0
    ensures SumOver(s, f) == 0
    decreases |s|
  {
    if s != {} {
      var x :| x in s;
      SumRemove(s, f, x);
      SumZero(s - {x}, f);
    }
  }

  lemma {:induction false} SumPlus<T>(s: set<T>, f: T -> int, g: T -> int, h: T -> int)
    requires forall x :: x in s ==> h(x) == f(x) + g(x)
    ensures SumOver(s, h) == SumOver(s, f) + SumOver(s, g)
    decreases |s|
  {
    if s != {} {
      var x :| x in s;
      SumRemove(s, f, x);
      SumRemove(s, g, x);
      SumRemove(s, h, x);
      SumPlus(s - {x}, f, g, h);
    }
  }

  ghost function Fiber<A, B>(s: set<A>, key: A -> B, k: B): set<A> {
    set x | x in s && key(x) == k
  }

  ghost predicate SumsFiber<A, B>(s: set<A>, key: A -> B, f: A -> int, g: B -> int, k: B) {
    g(k) == SumOver(Fiber(s, key, k), f)
  }

  /** A function gives, for each of the keys, the sum over its fiber. */
  ghost predicate SumsFibers<A, B(!new)>(s: set<A>, key: A -> B, f: A -> int, keys: set<B>, g: B -> int) {
    forall k {:trigger SumsFiber(s, key, f, g, k)} :: k in keys ==> SumsFiber(s, key, f, g, k)
  }

  lemma OtherFibers<A, B(!new)>(s: set<A>, key: A -> B, f: A -> int, keys: set<B>, g: B -> int, k: B)
    requires SumsFibers(s, key, f, keys, g)
    ensures SumsFibers(s - Fiber(s, key, k), key, f, keys - {k}, g)
  {
    forall j | j in keys - {k}
      ensures SumsFiber(s - Fiber(s, key, k), key, f, g, j)
    {
      assert SumsFiber(s, key, f, g, j);
      assert Fiber(s - Fiber(s, key, k), key, j) == Fiber(s, key, j);
    }
  }

  /** A sum is the sum of its partial sums, grouped by any key. */
  lemma {:induction false} SumFibers<A, B(!new)>(s: set<A>, key: A -> B, f: A -> int, keys: set<B>, g: B -> int)
    requires forall x :: x in s ==> key(x) in keys
    requires SumsFibers(s, key, f, keys, g)
    ensures SumOver(keys, g) == SumOver(s, f)
    decreases |keys|
  {
    if keys == {} {
      assert s == {};
    } else {
      var k :| k in keys;
      assert SumsFiber(s, key, f, g, k);
      SumRemove(keys, g, k);
      OtherFibers(s, key, f, keys, g, k);
      SumFibers(s - Fiber(s, key, k), key, f, keys - {k}, g);
      SumSplits(s, Fiber(s, key, k), f);
    }
  }

  /** A sum can be carried along a bijection. */
  lemma {:induction false} SumImage<A, B>(s: set<A>, h: A -> B, t: set<B>, f: A -> int, g: B -> int)
    requires forall x :: x in s ==> h(x) in t && f(x) == g(h(x))
    requires forall y :: y in t ==> exists x :: x in s && h(x) == y
    requires forall x, x' :: x in s && x' in s && h(x) == h(x') ==> x == x'
    ensures SumOver(s, f) == SumOver(t, g)
    decreases |s|
  {
    if s == {} {
      assert t == {};
    } else {
      var x :| x in s;
      SumRemove(s, f, x);
      SumRemove(t, g, h(x));
      forall y | y in t - {h(x)}
        ensures exists z :: z in s - {x} && h(z) == y
      {
        var z :| z in s && h(z) == y;
        assert z in s - {x};
      }
      SumImage(s - {x}, h, t - {h(x)}, f, g);
    }
  }

  /** A sum as a saturating fold leaves it. */
  ghost function ClampedSum<T>(s: set<T>, f: T -> int): u64 {
    if SumOver(s, f) >= 0 then Clamp(SumOver(s, f)) else 0
  }

  lemma SaturatingFoldStep<T>(done: set<T>, x: T, f: T -> int)
    requires x !in done && 0 <= f(x) <= U64_MAX
    requires forall y :: y in done ==> f(y) >= 0
    ensures ClampedSum(done + {x}, f) == SatAdd(ClampedSum(done, f), f(x))
  {
    SumAdd(done, f, x);
    SumNonNegative(done, f);
  }
}
