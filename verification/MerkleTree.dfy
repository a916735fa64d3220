// The ordered tree over the authorization log's entry hashes, its audit paths, and the sides
// a verifier expects. A tree of n > 1 entries splits at the largest power of two below n, the
// shape of section 2.1 of RFC 6962.
module MerkleTree {
  import opened Digests

  function Pow2(e: nat): (p: nat)
    ensures p >= 1
  {
    if e == 0 then 1 else 2 * Pow2(e - 1)
  }

  /** The exact floor of the binary logarithm. */
  function FloorLog2(n: nat): (e: nat)
    requires n >= 1
  {
    if n == 1 then 0 else 1 + FloorLog2(n / 2)
  }

  lemma {:induction false} FloorLog2Bounds(n: nat)
    requires n >= 1
    ensures Pow2(FloorLog2(n)) <= n < Pow2(FloorLog2(n) + 1)
    ensures Pow2(FloorLog2(n) + 1) == 2 * Pow2(FloorLog2(n))
  {
    if n > 1 {
      FloorLog2Bounds(n / 2);
    }
  }

  lemma {:induction false} Pow2Monotone(d: nat, e: nat)
    requires d <= e
    ensures Pow2(d) <= Pow2(e)
    ensures d < e ==> 2 * Pow2(d) <= Pow2(e)
    decreases e
  {
    if d < e {
      Pow2Monotone(d, e - 1);
    }
  }

  lemma FloorLog2Unique(n: nat, e: nat)
    requires Pow2(e) <= n < Pow2(e + 1)
    ensures n >= 1 && FloorLog2(n) == e
  {
    var f := FloorLog2(n);
    FloorLog2Bounds(n);
    if f < e {
      Pow2Monotone(f + 1, e);
    } else if e < f {
      Pow2Monotone(e + 1, f);
    }
  }

  /** The size of the left subtree of a tree of `n` entries. */
  function LeftSize(n: nat): (k: nat)
    requires n >= 2
    ensures 1 <= k < n <= 2 * k
  {
    FloorLog2Bounds(n - 1);
    Pow2(FloorLog2(n - 1))
  }

  datatype Side = Left | Right

  /** A sibling hash, and the side of the running hash on which it stands. */
  datatype Step = Step(side: Side, hash: Digest)

  ghost function TreeRoot(entries: seq<Digest>): Digest
    requires entries != []
    decreases |entries|
  {
    if |entries| == 1 then LeafDigest(entries[0])
    else
      var k := LeftSize(|entries|);
      NodeDigest(TreeRoot(entries[..k]), TreeRoot(entries[k..]))
  }

  /** The siblings met when climbing from entry `index` to the root. */
  ghost function AuditPath(entries: seq<Digest>, index: nat): seq<Step>
    requires index < |entries|
    decreases |entries|
  {
    if |entries| == 1 then []
    else
      var k := LeftSize(|entries|);
      if index < k then AuditPath(entries[..k], index) + [Step(Right, TreeRoot(entries[k..]))]
      else AuditPath(entries[k..], index - k) + [Step(Left, TreeRoot(entries[..k]))]
  }

  /** The sides of that path: they depend on position and size alone. */
  ghost function PathSides(index: nat, n: nat): seq<Side>
    requires index < n
    decreases n
  {
    if n == 1 then []
    else
      var k := LeftSize(n);
      if index < k then PathSides(index, k) + [Right]
      else PathSides(index - k, n - k) + [Left]
  }

  function Join(hash: Digest, step: Step): Digest {
    if step.side == Left then NodeDigest(step.hash, hash) else NodeDigest(hash, step.hash)
  }

  ghost function Climb(hash: Digest, path: seq<Step>): Digest {
    if path == [] then hash else Join(Climb(hash, path[..|path| - 1]), path[|path| - 1])
  }

  ghost function SidesOf(path: seq<Step>): seq<Side> {
    seq(|path|, i requires 0 <= i < |path| => path[i].side)
  }

  /** The left subtree is the largest full one that leaves something to the right of it. */
  lemma LeftSizeExactly(e: nat, n: nat)
    requires Pow2(e) < n <= 2 * Pow2(e)
    ensures n >= 2 && LeftSize(n) == Pow2(e)
  {
    assert Pow2(e + 1) == 2 * Pow2(e);
    FloorLog2Unique(n - 1, e);
  }

  /** A leaf hashes its entry; a full left subtree and what is right of it, in this order, make the root. */
  lemma RootSplits(x: Digest, e: nat, left: seq<Digest>, right: seq<Digest>)
    requires |left| == Pow2(e) && 0 < |right| <= |left|
    ensures TreeRoot([x]) == LeafDigest(x)
    ensures TreeRoot(left + right) == NodeDigest(TreeRoot(left), TreeRoot(right))
  {
    LeftSizeExactly(e, |left + right|);
    assert (left + right)[..|left|] == left && (left + right)[|left|..] == right;
  }

  /** Climbing puts a left sibling before the running hash and a right one after it. */
  lemma ClimbSteps(hash: Digest, path: seq<Step>, sibling: Digest)
    ensures Climb(hash, []) == hash
    ensures Climb(hash, path + [Step(Left, sibling)]) == NodeDigest(sibling, Climb(hash, path))
    ensures Climb(hash, path + [Step(Right, sibling)]) == NodeDigest(Climb(hash, path), sibling)
  {
    var (a, b) := (path + [Step(Left, sibling)], path + [Step(Right, sibling)]);
    assert a[..|a| - 1] == path && b[..|b| - 1] == path;
  }

  /** Five entries: a full tree of four, and the fifth beside it. */
  lemma FiveEntries(a: Digest, b: Digest, c: Digest, d: Digest, e: Digest)
    ensures TreeRoot([a, b, c, d, e])
         == NodeDigest(NodeDigest(NodeDigest(LeafDigest(a), LeafDigest(b)), NodeDigest(LeafDigest(c), LeafDigest(d))),
                       LeafDigest(e))
  {
    RootSplits(e, 2, [a, b, c, d], [e]);
    RootSplits(a, 1, [a, b], [c, d]);
    RootSplits(a, 0, [a], [b]);
    RootSplits(c, 0, [c], [d]);
    RootSplits(b, 0, [b], [a]);
    RootSplits(d, 0, [d], [a]);
    assert [a, b, c, d] + [e] == [a, b, c, d, e] && [a, b] + [c, d] == [a, b, c, d];
    assert [a] + [b] == [a, b] && [c] + [d] == [c, d];
  }

  /** The check a verifier makes once the expected sides are known. */
  ghost predicate Included(root: Digest, entry: Digest, index: nat, n: nat, path: seq<Step>)
    requires index < n
  {
    SidesOf(path) == PathSides(index, n) && Climb(LeafDigest(entry), path) == root
  }

  /** The child of a tree of `n` entries that holds position `index`. */
  ghost function Descend(index: nat, n: nat): (r: (Side, nat, nat))
    requires index < n && n > 1
    ensures r.1 < r.2 < n
  {
    var k := LeftSize(n);
    if index < k then (Right, index, k) else (Left, index - k, n - k)
  }

  lemma SnocEqual<T>(a: seq<T>, x: T, b: seq<T>, y: T)
    ensures a + [x] == b + [y] <==> a == b && x == y
  {
    if a + [x] == b + [y] {
      assert (a + [x])[..|a|] == a && (b + [y])[..|b|] == b;
      assert (a + [x])[|a|] == x && (b + [y])[|b|] == y;
    }
  }

  lemma IncludedSnoc(root: Digest, entry: Digest, index: nat, n: nat, path: seq<Step>)
    requires index < n && n > 1
    ensures var (side, at, m) := Descend(index, n);
      Included(root, entry, index, n, path)
      <==> && path != []
           && path[|path| - 1].side == side
           && SidesOf(path[..|path| - 1]) == PathSides(at, m)
           && root == Join(Climb(LeafDigest(entry), path[..|path| - 1]), path[|path| - 1])
  {
    var (side, at, m) := Descend(index, n);
    assert PathSides(index, n) == PathSides(at, m) + [side];
    if path != [] {
      var front, last := path[..|path| - 1], path[|path| - 1];
      assert SidesOf(path) == SidesOf(front) + [last.side];
      SnocEqual(SidesOf(front), last.side, PathSides(at, m), side);
    }
  }

  /** The subtree that holds position `index`, and its sibling. */
  ghost function Near(entries: seq<Digest>, index: nat): (near: seq<Digest>)
    requires index < |entries| && |entries| > 1
    ensures near != [] && |near| < |entries|
  {
    var k := LeftSize(|entries|);
    if index < k then entries[..k] else entries[k..]
  }

  ghost function Far(entries: seq<Digest>, index: nat): (far: seq<Digest>)
    requires index < |entries| && |entries| > 1
    ensures far != []
  {
    var k := LeftSize(|entries|);
    if index < k then entries[k..] else entries[..k]
  }

  /** One level of the tree: entry, root and audit path by way of the subtree that holds the position. */
  lemma OneLevel(entries: seq<Digest>, index: nat)
    requires index < |entries| && |entries| > 1
    ensures var ((side, at, m), near, far) := (Descend(index, |entries|), Near(entries, index), Far(entries, index));
      && |near| == m && near[at] == entries[index]
      && TreeRoot(entries) == Join(TreeRoot(near), Step(side, TreeRoot(far)))
      && AuditPath(entries, index) == AuditPath(near, at) + [Step(side, TreeRoot(far))]
  {
  }

  lemma JoinInjective(x: Digest, y: Digest, a: Step, b: Step)
    requires a.side == b.side
    ensures Join(x, a) == Join(y, b) <==> x == y && a == b
  {
  }

  lemma FrontAndLast<T>(s: seq<T>)
    requires s != []
    ensures s == s[..|s| - 1] + [s[|s| - 1]]
  {
  }

  /** Soundness and completeness: against the root of a known log, the check passes for exactly
      the entry at that position together with its audit path. */
  lemma {:induction false} InclusionExact(entries: seq<Digest>, index: nat, entry: Digest, path: seq<Step>)
    requires index < |entries|
    ensures Included(TreeRoot(entries), entry, index, |entries|, path)
       <==> entry == entries[index] && path == AuditPath(entries, index)
    decreases |entries|
  {
    if |entries| == 1 {
      assert path == [] <==> SidesOf(path) == [];
    } else {
      var ((side, at, m), near, far) := (Descend(index, |entries|), Near(entries, index), Far(entries, index));
      OneLevel(entries, index);
      IncludedSnoc(TreeRoot(entries), entry, index, |entries|, path);
      if path != [] {
        var (front, last, sibling) := (path[..|path| - 1], path[|path| - 1], Step(side, TreeRoot(far)));
        InclusionExact(near, at, entry, front);
        FrontAndLast(path);
        SnocEqual(front, last, AuditPath(near, at), sibling);
        if last.side == side {
          JoinInjective(Climb(LeafDigest(entry), front), TreeRoot(near), last, sibling);
        }
      }
    }
  }

  lemma LogOfPredecessor(m: nat, e: nat)
    requires 2 <= m <= Pow2(e)
    ensures FloorLog2(m - 1) + 1 <= e
  {
    var f := FloorLog2(m - 1);
    FloorLog2Bounds(m - 1);
    if e <= f {
      Pow2Monotone(e, f);
    }
  }

  /** A path has at most the number of bits of `n - 1` steps, the ceiling of log2 n. */
  lemma {:induction false} PathSidesBound(index: nat, n: nat)
    requires index < n
    ensures n > 1 ==> |PathSides(index, n)| <= FloorLog2(n - 1) + 1
    ensures n == 1 ==> PathSides(index, n) == []
    decreases n
  {
    if n > 1 {
      var k := LeftSize(n);
      var e := FloorLog2(n - 1);
      if index < k {
        PathSidesBound(index, k);
        if k > 1 {
          LogOfPredecessor(k, e);
        }
      } else {
        PathSidesBound(index - k, n - k);
        if n - k > 1 {
          LogOfPredecessor(n - k, e);
        }
      }
    }
  }

  /** Different positions of one tree expect different sides, so a proof names its position. */
  lemma {:induction false} PathSidesInjective(i: nat, j: nat, n: nat)
    requires i < n && j < n && PathSides(i, n) == PathSides(j, n)
    ensures i == j
    decreases n
  {
    if n > 1 {
      var k := LeftSize(n);
      var si, sj := PathSides(i, n), PathSides(j, n);
      assert si[|si| - 1] == (if i < k then Right else Left);
      assert sj[|sj| - 1] == (if j < k then Right else Left);
      if i < k {
        assert si[..|si| - 1] == PathSides(i, k) && sj[..|sj| - 1] == PathSides(j, k);
        PathSidesInjective(i, j, k);
      } else {
        assert si[..|si| - 1] == PathSides(i - k, n - k) && sj[..|sj| - 1] == PathSides(j - k, n - k);
        PathSidesInjective(i - k, j - k, n - k);
      }
    }
  }

  /** The root of a tree of known size commits to every entry. */
  lemma {:induction false} RootCommits(a: seq<Digest>, b: seq<Digest>)
    requires |a| == |b| > 0 && TreeRoot(a) == TreeRoot(b)
    ensures a == b
    decreases |a|
  {
    if |a| > 1 {
      var k := LeftSize(|a|);
      RootCommits(a[..k], b[..k]);
      RootCommits(a[k..], b[k..]);
      assert a == a[..k] + a[k..] && b == b[..k] + b[k..];
    }
  }
}
