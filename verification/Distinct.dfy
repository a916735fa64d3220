// What spreading a JavaScript Set of a list gives: each value once, where it first occurs.
module Distinct {

  function Unique<T(==)>(s: seq<T>): seq<T> {
    if s == [] then []
    else
      var (front, last) := (s[..|s| - 1], s[|s| - 1]);
      if last in front then Unique(front) else Unique(front) + [last]
  }

  lemma {:induction false} UniqueMembers<T>(s: seq<T>)
    ensures forall x :: x in Unique(s) <==> x in s
    ensures forall i, j :: 0 <= i < j < |Unique(s)| ==> Unique(s)[i] != Unique(s)[j]
  {
    if s != [] {
      var (front, last) := (s[..|s| - 1], s[|s| - 1]);
      UniqueMembers(front);
      assert s == front + [last];
    }
  }

  lemma {:induction false} UniqueMember<T>(s: seq<T>, x: T)
    ensures x in Unique(s) <==> x in s
  {
    if s != [] {
      UniqueMember(s[..|s| - 1], x);
      assert s == s[..|s| - 1] + [s[|s| - 1]];
    }
  }

  /** More than one value is left exactly when two differ. */
  lemma SeveralDiffer<T>(s: seq<T>)
    ensures |Unique(s)| > 1 <==> exists i, j :: 0 <= i < |s| && 0 <= j < |s| && s[i] != s[j]
  {
    UniqueMembers(s);
    var u := Unique(s);
    if |u| > 1 {
      var x, y := u[0], u[1];
      UniqueMember(s, x);
      UniqueMember(s, y);
      var i :| 0 <= i < |s| && s[i] == x;
      var j :| 0 <= j < |s| && s[j] == y;
    }
    if i, j :| 0 <= i < |s| && 0 <= j < |s| && s[i] != s[j] {
      UniqueMember(s, s[i]);
      UniqueMember(s, s[j]);
      var a :| 0 <= a < |u| && u[a] == s[i];
      var b :| 0 <= b < |u| && u[b] == s[j];
      assert a != b;
    }
  }

  /** `x` occurs in `s` before `y` does. */
  ghost predicate FirstOf<T>(s: seq<T>, x: T, y: T) {
    exists k :: 0 <= k < |s| && s[k] == x && forall j :: 0 <= j <= k ==> s[j] != y
  }

  /** Values stand in the order in which they first occur. */
  lemma {:induction false} UniqueInOrder<T>(s: seq<T>, p: nat, q: nat)
    requires p < q < |Unique(s)|
    ensures FirstOf(s, Unique(s)[p], Unique(s)[q])
  {
    var (front, last) := (s[..|s| - 1], s[|s| - 1]);
    var (x, y) := (Unique(s)[p], Unique(s)[q]);
    if q < |Unique(front)| {
      UniqueInOrder(front, p, q);
    } else {
      UniqueMember(front, x);
      UniqueMember(front, y);
    }
    var k :| 0 <= k < |front| && front[k] == x && forall j :: 0 <= j <= k ==> front[j] != y;
    assert s[k] == x;
    assert forall j :: 0 <= j <= k ==> s[j] == front[j];
  }
}
