/** Lexicographic order, and finite sets listed in ascending order. */
module Ordering {

  ghost predicate TotalOrder<T(!new)>(le: (T, T) -> bool) {
    && (forall x, y :: le(x, y) || le(y, x))
    && (forall x, y :: le(x, y) && le(y, x) ==> x == y)
    && (forall x, y, z :: le(x, y) && le(y, z) ==> le(x, z))
  }

  ghost predicate IsLeast<T(!new)>(s: set<T>, le: (T, T) -> bool, m: T) {
    m in s && forall x :: x in s ==> le(m, x)
  }

  lemma OneMoreLeast<T(!new)>(s: set<T>, le: (T, T) -> bool, m: T, y: T)
    requires TotalOrder(le) && IsLeast(s, le, m)
    ensures IsLeast(s + {y}, le, if le(m, y) then m else y)
  {
    if !le(m, y) {
      assert le(y, m) && le(y, y);
      forall x | x in s ensures le(y, x) {
        assert le(m, x);
      }
    }
  }

  lemma {:induction false} LeastExists<T(!new)>(s: set<T>, le: (T, T) -> bool)
    requires s != {} && TotalOrder(le)
    ensures exists m :: IsLeast(s, le, m)
    decreases |s|
  {
    var y :| y in s;
    if s == {y} {
      assert le(y, y);
      assert IsLeast(s, le, y);
    } else {
      var rest := s - {y};
      LeastExists(rest, le);
      var m :| IsLeast(rest, le, m);
      OneMoreLeast(rest, le, m, y);
      assert rest + {y} == s;
    }
  }

  ghost function Least<T(!new)>(s: set<T>, le: (T, T) -> bool): (m: T)
    requires s != {} && TotalOrder(le)
    ensures IsLeast(s, le, m)
  {
    LeastExists(s, le);
    var m :| IsLeast(s, le, m);
    m
  }

  /** The elements of a set in ascending order. */
  ghost function Ascending<T(!new)>(s: set<T>, le: (T, T) -> bool): seq<T>
    requires TotalOrder(le)
    decreases |s|
  {
    if s == {} then [] else [Least(s, le)] + Ascending(s - {Least(s, le)}, le)
  }

  ghost predicate SortedBy<T>(xs: seq<T>, le: (T, T) -> bool) {
    forall i, j :: 0 <= i < j < |xs| ==> le(xs[i], xs[j]) && xs[i] != xs[j]
  }

  /** `Ascending` lists every element once, in order. */
  lemma {:induction false} AscendingIsSorted<T(!new)>(s: set<T>, le: (T, T) -> bool)
    requires TotalOrder(le)
    ensures SortedBy(Ascending(s, le), le)
    ensures forall x :: x in Ascending(s, le) <==> x in s
    ensures |Ascending(s, le)| == |s|
    decreases |s|
  {
    if s != {} {
      AscendingIsSorted(s - {Least(s, le)}, le);
    }
  }

  lemma HeadIsIn<T>(xs: seq<T>)
    ensures xs == [] || xs[0] in xs
  {
  }

  /** There is only one way to list a set in ascending order. */
  lemma {:induction false} SortedIsUnique<T(!new)>(xs: seq<T>, s: set<T>, le: (T, T) -> bool)
    requires TotalOrder(le) && SortedBy(xs, le) && forall x :: x in xs <==> x in s
    ensures xs == Ascending(s, le)
    decreases |s|
  {
    if s == {} {
      HeadIsIn(xs);
    } else {
      var m := Least(s, le);
      assert m in xs;
      var i :| 0 <= i < |xs| && xs[i] == m;
      var first := xs[0];
      assert first in xs && first in s;
      assert le(m, first);
      assert i > 0 ==> le(first, m) && first != m;
      assert first == m;
      assert xs == [m] + xs[1..];
      forall x ensures x in xs[1..] <==> x in s - {m} {
        if x in xs[1..] {
          var j :| 0 <= j < |xs[1..]| && xs[1..][j] == x;
          assert xs[0] != xs[j + 1];
        }
      }
      SortedIsUnique(xs[1..], s - {m}, le);
    }
  }

  predicate LexLe(a: seq<int>, b: seq<int>) {
    a == [] || (b != [] && (a[0] < b[0] || (a[0] == b[0] && LexLe(a[1..], b[1..]))))
  }

  lemma {:induction false} LexTotal(a: seq<int>, b: seq<int>)
    ensures LexLe(a, b) || LexLe(b, a)
    ensures LexLe(a, b) && LexLe(b, a) ==> a == b
  {
    if a != [] && b != [] {
      LexTotal(a[1..], b[1..]);
      assert a == [a[0]] + a[1..] && b == [b[0]] + b[1..];
    }
  }

  lemma {:induction false} LexTransitive(a: seq<int>, b: seq<int>, c: seq<int>)
    requires LexLe(a, b) && LexLe(b, c)
    ensures LexLe(a, c)
  {
    if a != [] && a[0] == b[0] == c[0] {
      LexTransitive(a[1..], b[1..], c[1..]);
    }
  }

  function Codes(s: string): seq<int> {
    seq(|s|, i requires 0 <= i < |s| => s[i] as int)
  }

  /** The order of strings, character code by character code. */
  predicate StringLe(a: string, b: string) {
    LexLe(Codes(a), Codes(b))
  }

  /** The first difference decides. */
  ghost predicate DiffersFirstAt(a: seq<int>, b: seq<int>, i: nat) {
    i < |a| && i < |b| && a[i] < b[i] && forall j :: 0 <= j < i ==> a[j] == b[j]
  }

  lemma {:induction false} FirstDifferenceDecides(a: seq<int>, b: seq<int>)
    ensures LexLe(a, b) <==> a <= b || exists i: nat :: DiffersFirstAt(a, b, i)
  {
    if a != [] && b != [] {
      FirstDifferenceDecides(a[1..], b[1..]);
      if a[0] == b[0] {
        DifferenceInTail(a, b);
      }
      assert a[0] < b[0] ==> DiffersFirstAt(a, b, 0);
    }
  }

  lemma DifferenceInTail(a: seq<int>, b: seq<int>)
    requires a != [] && b != [] && a[0] == b[0]
    ensures (exists i: nat :: DiffersFirstAt(a, b, i)) <==> exists i: nat :: DiffersFirstAt(a[1..], b[1..], i)
    ensures a <= b <==> a[1..] <= b[1..]
  {
    if i: nat :| DiffersFirstAt(a, b, i) {
      assert DiffersFirstAt(a[1..], b[1..], i - 1);
    }
    if i: nat :| DiffersFirstAt(a[1..], b[1..], i) {
      assert DiffersFirstAt(a, b, i + 1);
    }
    assert a == [a[0]] + a[1..] && b == [b[0]] + b[1..];
  }

  /** Strings are in order when one begins the other or the first difference is upwards. */
  lemma StringsCompareLexicographically(a: string, b: string)
    ensures StringLe(a, b) <==>
            a <= b || exists i :: 0 <= i < |a| && i < |b| && a[i] < b[i] && a[..i] == b[..i]
  {
    FirstDifferenceDecides(Codes(a), Codes(b));
    if Codes(a) <= Codes(b) {
      forall i | 0 <= i < |a| ensures a[i] == b[i] {
        assert Codes(a)[i] == Codes(b)[i];
      }
    }
    if i: nat :| DiffersFirstAt(Codes(a), Codes(b), i) {
      forall j | 0 <= j < i ensures a[j] == b[j] {
        assert Codes(a)[j] == Codes(b)[j];
      }
      assert a[..i] == b[..i];
    }
    if i :| 0 <= i < |a| && i < |b| && a[i] < b[i] && a[..i] == b[..i] {
      forall j | 0 <= j < i ensures a[j] == b[j] {
        assert a[..i][j] == b[..i][j];
      }
      assert DiffersFirstAt(Codes(a), Codes(b), i);
    }
  }

  lemma CodesInjective(a: string, b: string)
    requires Codes(a) == Codes(b)
    ensures a == b
  {
    assert |Codes(a)| == |a| && |Codes(b)| == |b|;
    forall i | 0 <= i < |a| ensures a[i] == b[i] {
      assert Codes(a)[i] == Codes(b)[i];
    }
  }

  lemma StringOrder()
    ensures TotalOrder(StringLe)
  {
    forall a, b
      ensures StringLe(a, b) || StringLe(b, a)
      ensures StringLe(a, b) && StringLe(b, a) ==> a == b
    {
      LexTotal(Codes(a), Codes(b));
      if StringLe(a, b) && StringLe(b, a) {
        CodesInjective(a, b);
      }
    }
    forall a, b, c | StringLe(a, b) && StringLe(b, c)
      ensures StringLe(a, c)
    {
      LexTransitive(Codes(a), Codes(b), Codes(c));
    }
  }
}
