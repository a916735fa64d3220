// Filtering, mapping, reversing and minima of lists, and what they keep under permutation.
module Lists {

  function Filter<T>(f: T -> bool, s: seq<T>): seq<T> {
    if s == [] then []
    else
      var (front, last) := (s[..|s| - 1], s[|s| - 1]);
      if f(last) then Filter(f, front) + [last] else Filter(f, front)
  }

  function Map<T, U>(f: T -> U, s: seq<T>): (r: seq<U>)
    ensures |r| == |s|
  {
    if s == [] then [] else Map(f, s[..|s| - 1]) + [f(s[|s| - 1])]
  }

  lemma FilterSnoc<T>(f: T -> bool, s: seq<T>, x: T)
    ensures Filter(f, s + [x]) == if f(x) then Filter(f, s) + [x] else Filter(f, s)
  {
    assert (s + [x])[..|s + [x]| - 1] == s;
  }

  lemma MapSnoc<T, U>(f: T -> U, s: seq<T>, x: T)
    ensures Map(f, s + [x]) == Map(f, s) + [f(x)]
  {
    assert (s + [x])[..|s + [x]| - 1] == s;
  }

  lemma {:induction false} MapAt<T, U>(f: T -> U, s: seq<T>, i: nat)
    requires i < |s|
    ensures Map(f, s)[i] == f(s[i])
  {
    if i < |s| - 1 {
      MapAt(f, s[..|s| - 1], i);
    }
  }

  lemma {:induction false} MapMember<T, U>(f: T -> U, s: seq<T>, y: U)
    ensures y in Map(f, s) <==> exists x :: x in s && f(x) == y
  {
    if s != [] {
      MapMember(f, s[..|s| - 1], y);
      assert s == s[..|s| - 1] + [s[|s| - 1]];
    }
  }

  lemma {:induction false} FilterMember<T>(f: T -> bool, s: seq<T>, x: T)
    ensures x in Filter(f, s) <==> x in s && f(x)
  {
    if s != [] {
      assert s == s[..|s| - 1] + [s[|s| - 1]];
      FilterMember(f, s[..|s| - 1], x);
    }
  }

  lemma {:induction false} FilterAppend<T>(f: T -> bool, a: seq<T>, b: seq<T>)
    ensures Filter(f, a + b) == Filter(f, a) + Filter(f, b)
  {
    if b == [] {
      assert a + b == a;
    } else {
      var front, last := b[..|b| - 1], b[|b| - 1];
      assert (a + b)[..|a + b| - 1] == a + front;
      FilterAppend(f, a, front);
    }
  }

  lemma {:induction false} FilterAll<T>(f: T -> bool, s: seq<T>)
    requires forall i :: 0 <= i < |s| ==> f(s[i])
    ensures Filter(f, s) == s
  {
    if s != [] {
      FilterAll(f, s[..|s| - 1]);
      assert s == s[..|s| - 1] + [s[|s| - 1]];
    }
  }

  lemma {:induction false} FilterNone<T>(f: T -> bool, s: seq<T>)
    requires forall i :: 0 <= i < |s| ==> !f(s[i])
    ensures Filter(f, s) == []
  {
    if s != [] {
      FilterNone(f, s[..|s| - 1]);
    }
  }

  /** A stretch in which every element passes is a lower bound for the filtered size. */
  lemma FilterStretch<T>(f: T -> bool, s: seq<T>, from: nat, to: nat)
    requires from <= to <= |s| && forall i :: from <= i < to ==> f(s[i])
    ensures |Filter(f, s)| >= to - from
  {
    var (before, here, after) := (s[..from], s[from..to], s[to..]);
    assert s == before + here + after;
    FilterAppend(f, before + here, after);
    FilterAppend(f, before, here);
    FilterAll(f, here);
  }

  /** When exactly a tail passes, or exactly a head. */
  lemma {:induction false} FilterTail<T>(f: T -> bool, s: seq<T>, k: nat)
    requires k <= |s|
    requires forall i :: 0 <= i < |s| ==> (f(s[i]) <==> i >= k)
    ensures |Filter(f, s)| == |s| - k
  {
    if s != [] {
      var front := s[..|s| - 1];
      FilterTail(f, front, if k < |s| then k else |front|);
    }
  }

  lemma {:induction false} FilterHead<T>(f: T -> bool, s: seq<T>, k: nat)
    requires k <= |s|
    requires forall i :: 0 <= i < |s| ==> (f(s[i]) <==> i < k)
    ensures |Filter(f, s)| == k
  {
    if s != [] {
      var front := s[..|s| - 1];
      FilterHead(f, front, if k < |s| then k else |front|);
    }
  }

  /** The other list without one occurrence of the last element of this one. */
  lemma Matching<T>(a: seq<T>, b: seq<T>) returns (left: seq<T>, right: seq<T>)
    requires a != [] && multiset(a) == multiset(b)
    ensures b == left + [a[|a| - 1]] + right
    ensures multiset(left + right) == multiset(a[..|a| - 1])
  {
    var front, x := a[..|a| - 1], a[|a| - 1];
    assert a == front + [x];
    assert x in multiset(b);
    var i :| 0 <= i < |b| && b[i] == x;
    left, right := b[..i], b[i + 1..];
    assert b == left + [x] + right;
    assert multiset(b) == multiset(left) + multiset{x} + multiset(right);
    assert multiset(a) == multiset(front) + multiset{x};
    assert multiset(left + right) == multiset(b) - multiset{x};
  }

  lemma {:induction false} FilterPermutes<T>(f: T -> bool, a: seq<T>, b: seq<T>)
    requires multiset(a) == multiset(b)
    ensures multiset(Filter(f, a)) == multiset(Filter(f, b))
    decreases |a|
  {
    if a == [] {
      assert |multiset(a)| == |multiset(b)|;
    } else {
      var left, right := Matching(a, b);
      var x := a[|a| - 1];
      FilterPermutes(f, a[..|a| - 1], left + right);
      FilterAppend(f, left, right);
      FilterAppend(f, left + [x], right);
      FilterSnoc(f, left, x);
    }
  }

  lemma {:induction false} FilterAgrees<T>(f: T -> bool, g: T -> bool, s: seq<T>)
    requires forall x :: x in s ==> f(x) == g(x)
    ensures Filter(f, s) == Filter(g, s)
  {
    if s != [] {
      FilterAgrees(f, g, s[..|s| - 1]);
    }
  }

  lemma {:induction false} MapAppend<T, U>(f: T -> U, a: seq<T>, b: seq<T>)
    ensures Map(f, a + b) == Map(f, a) + Map(f, b)
  {
    if b == [] {
      assert a + b == a;
    } else {
      var front, last := b[..|b| - 1], b[|b| - 1];
      assert (a + b)[..|a + b| - 1] == a + front;
      MapAppend(f, a, front);
    }
  }

  lemma {:induction false} MapAgrees<T, U>(f: T -> U, g: T -> U, s: seq<T>)
    requires forall x :: x in s ==> f(x) == g(x)
    ensures Map(f, s) == Map(g, s)
  {
    if s != [] {
      MapAgrees(f, g, s[..|s| - 1]);
    }
  }

  lemma {:induction false} MapPermutes<T, U>(f: T -> U, a: seq<T>, b: seq<T>)
    requires multiset(a) == multiset(b)
    ensures multiset(Map(f, a)) == multiset(Map(f, b))
    decreases |a|
  {
    if a == [] {
      assert |multiset(a)| == |multiset(b)|;
    } else {
      var left, right := Matching(a, b);
      var x := a[|a| - 1];
      MapPermutes(f, a[..|a| - 1], left + right);
      MapAppend(f, left, right);
      MapAppend(f, left + [x], right);
      MapSnoc(f, left, x);
    }
  }

  /** `Array.reverse`. */
  function Reversed<T>(s: seq<T>): (r: seq<T>)
    ensures |r| == |s|
  {
    if s == [] then [] else Reversed(s[1..]) + [s[0]]
  }

  lemma {:induction false} ReversedSnoc<T>(s: seq<T>, x: T)
    ensures Reversed(s + [x]) == [x] + Reversed(s)
  {
    if s != [] {
      assert (s + [x])[1..] == s[1..] + [x];
      ReversedSnoc(s[1..], x);
    }
  }

  /** `Math.min(...s)`. */
  function Minimum(s: seq<int>): int
    requires s != []
  {
    if |s| == 1 then s[0]
    else
      var rest := Minimum(s[..|s| - 1]);
      if s[|s| - 1] < rest then s[|s| - 1] else rest
  }

  lemma SnocMember<T>(s: seq<T>, y: T, x: T)
    ensures x in s + [y] <==> x in s || x == y
  {
  }

  lemma {:induction false} MinimumExactly(s: seq<int>)
    requires s != []
    ensures Minimum(s) in s
    ensures forall x :: x in s ==> Minimum(s) <= x
  {
    if |s| == 1 {
      assert forall x :: x in s ==> x == s[0];
    } else {
      var (front, last) := (s[..|s| - 1], s[|s| - 1]);
      MinimumExactly(front);
      forall x ensures x in s <==> x in front || x == last {
        SnocMember(front, last, x);
        assert s == front + [last];
      }
    }
  }

  lemma MinimumPermutes(a: seq<int>, b: seq<int>)
    requires a != [] && b != [] && multiset(a) == multiset(b)
    ensures Minimum(a) == Minimum(b)
  {
    MinimumExactly(a);
    MinimumExactly(b);
    var x, y := Minimum(a), Minimum(b);
    assert x in multiset(a) && y in multiset(b);
    assert x in b && y in a;
  }

  lemma FilterSize<T>(f: T -> bool, a: seq<T>, b: seq<T>)
    requires multiset(a) == multiset(b)
    ensures |Filter(f, a)| == |Filter(f, b)|
  {
    FilterPermutes(f, a, b);
    assert |multiset(Filter(f, a))| == |multiset(Filter(f, b))|;
  }
}
