// The issuer's side: the persisted index of complete subtrees, its incremental maintenance,
// and the proofs and chains issued from it.
module MerkleLog {
  import opened Wrappers
  import opened Digests
  import opened MerkleTree
  import Numerals

  /** The subtree of `2^level` entries that begins at position `start` (counted from one). */
  datatype NodeRange = NodeRange(start: nat, level: nat)

  datatype MerkleNode = MerkleNode(range: NodeRange, hash: Digest)

  datatype MerkleProof = MerkleProof(root: Digest, path: seq<Step>)

  type Index = map<NodeRange, Digest>

  predicate IsPow2(n: nat)
    requires n >= 1
  {
    Pow2(FloorLog2(n)) == n
  }

  /** `2^e` divides `x`. */
  ghost predicate AlignedTo(x: nat, e: nat) {
    e == 0 || (x % 2 == 0 && AlignedTo(x / 2, e - 1))
  }

  lemma {:induction false} AlignedDown(x: nat, d: nat, e: nat)
    requires AlignedTo(x, e) && d <= e
    ensures AlignedTo(x, d)
    decreases e
  {
    if d > 0 {
      AlignedDown(x / 2, d - 1, e - 1);
    }
  }

  lemma {:induction false} AlignedSum(x: nat, y: nat, e: nat)
    requires AlignedTo(x, e) && (AlignedTo(y, e) || AlignedTo(x + y, e))
    ensures AlignedTo(y, e) && AlignedTo(x + y, e)
    decreases e
  {
    if e > 0 {
      assert (x + y) / 2 == x / 2 + y / 2;
      AlignedSum(x / 2, y / 2, e - 1);
    }
  }

  lemma HalfOfPow2(e: nat)
    requires e > 0
    ensures Pow2(e) % 2 == 0 && Pow2(e) / 2 == Pow2(e - 1)
  {
  }

  lemma {:induction false} Pow2Aligned(d: nat, e: nat)
    requires d <= e
    ensures AlignedTo(Pow2(e), d)
    decreases d
  {
    if d > 0 {
      HalfOfPow2(e);
      Pow2Aligned(d - 1, e - 1);
    }
  }

  lemma {:induction false} AlignedAtLeast(x: nat, e: nat)
    requires AlignedTo(x, e) && x > 0
    ensures x >= Pow2(e)
    decreases e
  {
    if e > 0 {
      AlignedAtLeast(x / 2, e - 1);
    }
  }

  lemma TwiceProduct(p: int, q: int)
    ensures 2 * (p * q) == q * (2 * p)
  {
  }

  lemma RestOfDouble(x: nat, p: nat, q: nat, r: nat, bit: nat)
    requires r < p && bit < 2 && x == 2 * (q * p + r) + bit
    ensures x % (2 * p) == 2 * r + bit
  {
    TwiceProduct(p, q);
    Numerals.DivMod(2 * p, q, 2 * r + bit);
  }

  lemma DivisibleByDouble(x: nat, p: nat)
    requires p >= 1
    ensures x % (2 * p) == 0 <==> x % 2 == 0 && x / 2 % p == 0
  {
    Numerals.Parts(x / 2, p);
    RestOfDouble(x, p, x / 2 / p, x / 2 % p, x % 2);
  }

  lemma {:induction false} AlignedIsDivisible(x: nat, e: nat)
    ensures AlignedTo(x, e) <==> x % Pow2(e) == 0
    decreases e
  {
    if e > 0 {
      AlignedIsDivisible(x / 2, e - 1);
      DivisibleByDouble(x, Pow2(e - 1));
    }
  }

  /** The entries under a subtree are all present. */
  ghost predicate Complete(range: NodeRange, n: nat) {
    && range.start >= 1
    && AlignedTo(range.start - 1, range.level)
    && range.start - 1 + Pow2(range.level) <= n
  }

  /** The range lies within one block of `2^e` positions, at its beginning. */
  ghost predicate InBlock(start: nat, count: nat, e: nat) {
    start >= 1 && 1 <= count <= Pow2(e) && AlignedTo(start - 1, e)
  }

  ghost function Slice(entries: seq<Digest>, start: nat, count: nat): (s: seq<Digest>)
    requires start >= 1 && start - 1 + count <= |entries|
    ensures |s| == count
  {
    entries[start - 1..start - 1 + count]
  }

  /** The root of the tree over positions `start` to `start + count - 1`. */
  ghost function RangeRoot(entries: seq<Digest>, start: nat, count: nat): Digest
    requires start >= 1 && count >= 1 && start - 1 + count <= |entries|
  {
    TreeRoot(Slice(entries, start, count))
  }

  /** A range is in the index exactly when its entries are all present, and then with their root. */
  ghost predicate NodeExact(entries: seq<Digest>, nodes: Index, range: NodeRange) {
    && (range in nodes <==> Complete(range, |entries|))
    && (Complete(range, |entries|) ==> nodes[range] == RangeRoot(entries, range.start, Pow2(range.level)))
  }

  ghost predicate IndexExact(entries: seq<Digest>, nodes: Index) {
    forall range :: NodeExact(entries, nodes, range)
  }

  // ---------- Issuing a proof ----------

  /** The root of a range read from the index; None where the source throws on a missing node. */
  function RangeHash(start: nat, count: nat, nodes: Index): Option<Digest>
    requires count >= 1
    decreases count
  {
    if count == 1 || IsPow2(count) then
      var key := NodeRange(start, FloorLog2(count));
      if key in nodes then Some(nodes[key]) else None
    else
      var leftSize := LeftSize(count);
      var left := RangeHash(start, leftSize, nodes);
      var right := RangeHash(start + leftSize, count - leftSize, nodes);
      if left.Some? && right.Some? then Some(NodeDigest(left.value, right.value)) else None
  }

  datatype Span = Span(start: nat, count: nat)

  /** The half of a range that holds `sequence`, then the other half. */
  function ChildAndSibling(sequence: nat, start: nat, count: nat): (r: (Span, Span))
    requires start <= sequence < start + count && count >= 2
    ensures r.0.start <= sequence < r.0.start + r.0.count
    ensures r.0.count < count && 1 <= r.1.count < count
  {
    var left, right := Span(start, LeftSize(count)), Span(start + LeftSize(count), count - LeftSize(count));
    if sequence < right.start then (left, right) else (right, left)
  }

  function Climbed(below: MerkleProof, side: Side, hash: Digest): MerkleProof {
    MerkleProof(if side == Right then NodeDigest(below.root, hash) else NodeDigest(hash, below.root),
                below.path + [Step(side, hash)])
  }

  function Visit(entryHash: Digest, sequence: nat, start: nat, count: nat, nodes: Index): Option<MerkleProof>
    requires start <= sequence < start + count
    decreases count
  {
    if count == 1 then Some(MerkleProof(LeafDigest(entryHash), []))
    else
      var (child, sibling) := ChildAndSibling(sequence, start, count);
      var result := Visit(entryHash, sequence, child.start, child.count, nodes);
      var hash := RangeHash(sibling.start, sibling.count, nodes);
      if result.Some? && hash.Some?
      then Some(Climbed(result.value, if child.start == start then Right else Left, hash.value))
      else None
  }

  function CreateMerkleProof(entryHash: Digest, sequence: nat, size: nat, nodes: Index): Option<MerkleProof> {
    if 1 <= sequence <= size then Visit(entryHash, sequence, 1, size, nodes) else None
  }

  /** Both halves of a split range begin blocks of the size of the left half. */
  lemma SplitAligned(start: nat, count: nat, e: nat, d: nat, k: nat)
    requires count >= 2 && InBlock(start, count, e)
    requires d == FloorLog2(count - 1) && k == LeftSize(count)
    ensures InBlock(start, k, d) && InBlock(start + k, count - k, d)
  {
    FloorLog2Bounds(count - 1);
    if e <= d {
      Pow2Monotone(e, d);
    }
    AlignedDown(start - 1, d, e);
    Pow2Aligned(d, d);
    AlignedSum(start - 1, Pow2(d), d);
  }

  lemma SliceOfSlice(entries: seq<Digest>, start: nat, count: nat, k: nat)
    requires start >= 1 && k <= count && start - 1 + count <= |entries|
    ensures Slice(entries, start, count)[..k] == Slice(entries, start, k)
    ensures Slice(entries, start, count)[k..] == Slice(entries, start + k, count - k)
  {
    var range := Slice(entries, start, count);
    var right := Slice(entries, start + k, count - k);
    assert |range[k..]| == |right|;
    assert forall i :: 0 <= i < |right| ==> range[k..][i] == right[i];
  }

  lemma SplitSlice(entries: seq<Digest>, start: nat, count: nat)
    requires start >= 1 && count >= 2 && start - 1 + count <= |entries|
    ensures Slice(entries, start, count)[..LeftSize(count)] == Slice(entries, start, LeftSize(count))
    ensures Slice(entries, start, count)[LeftSize(count)..]
         == Slice(entries, start + LeftSize(count), count - LeftSize(count))
  {
    SliceOfSlice(entries, start, count, LeftSize(count));
  }

  lemma NodeCorrect(entries: seq<Digest>, nodes: Index, range: NodeRange)
    requires IndexExact(entries, nodes) && Complete(range, |entries|)
    ensures range in nodes && nodes[range] == RangeRoot(entries, range.start, Pow2(range.level))
  {
    assert NodeExact(entries, nodes, range);
  }

  lemma JoinRanges(entries: seq<Digest>, start: nat, count: nat, left: Digest, right: Digest)
    requires start >= 1 && count >= 2 && start - 1 + count <= |entries|
    requires left == RangeRoot(entries, start, LeftSize(count))
    requires right == RangeRoot(entries, start + LeftSize(count), count - LeftSize(count))
    ensures NodeDigest(left, right) == RangeRoot(entries, start, count)
  {
    SplitSlice(entries, start, count);
  }

  lemma CompleteRangeHash(entries: seq<Digest>, nodes: Index, start: nat, count: nat, e: nat)
    requires IndexExact(entries, nodes)
    requires start >= 1 && count >= 1 && start - 1 + count <= |entries|
    requires InBlock(start, count, e) && IsPow2(count)
    ensures RangeHash(start, count, nodes) == Some(RangeRoot(entries, start, count))
  {
    var d := FloorLog2(count);
    if e < d {
      Pow2Monotone(e, d);
    }
    AlignedDown(start - 1, d, e);
    NodeCorrect(entries, nodes, NodeRange(start, d));
  }

  lemma SplitRangeHash(start: nat, count: nat, nodes: Index)
    requires count >= 2
    ensures
      var (left, right) := (RangeHash(start, LeftSize(count), nodes),
                            RangeHash(start + LeftSize(count), count - LeftSize(count), nodes));
      !IsPow2(count) && left.Some? && right.Some? ==>
        RangeHash(start, count, nodes) == Some(NodeDigest(left.value, right.value))
  {
  }

  lemma {:induction false} RangeHashCorrect(entries: seq<Digest>, nodes: Index, start: nat, count: nat, e: nat)
    requires IndexExact(entries, nodes)
    requires start >= 1 && count >= 1 && start - 1 + count <= |entries|
    requires InBlock(start, count, e)
    ensures RangeHash(start, count, nodes) == Some(RangeRoot(entries, start, count))
    decreases count
  {
    if IsPow2(count) {
      CompleteRangeHash(entries, nodes, start, count, e);
    } else {
      assert count != 1 by {
        FloorLog2Unique(1, 0);
      }
      var d, k := FloorLog2(count - 1), LeftSize(count);
      SplitAligned(start, count, e, d, k);
      RangeHashCorrect(entries, nodes, start, k, d);
      RangeHashCorrect(entries, nodes, start + k, count - k, d);
      var left := RangeRoot(entries, start, k);
      var right := RangeRoot(entries, start + k, count - k);
      JoinRanges(entries, start, count, left, right);
      SplitRangeHash(start, count, nodes);
    }
  }

  /** The proof a full scan of the entries of a range would give. */
  ghost function ScannedProof(entries: seq<Digest>, sequence: nat, start: nat, count: nat): MerkleProof
    requires 1 <= start <= sequence < start + count && start - 1 + count <= |entries|
  {
    MerkleProof(RangeRoot(entries, start, count), AuditPath(Slice(entries, start, count), sequence - start))
  }

  /** The two spans of a range, as the two subtrees of its entries. */
  lemma SpansAreSubtrees(entries: seq<Digest>, sequence: nat, start: nat, count: nat)
    requires 1 <= start <= sequence < start + count && start - 1 + count <= |entries| && count >= 2
    ensures
      var ((child, sibling), range, at) := (ChildAndSibling(sequence, start, count), Slice(entries, start, count),
                                            sequence - start);
      && Near(range, at) == Slice(entries, child.start, child.count)
      && Far(range, at) == Slice(entries, sibling.start, sibling.count)
      && Descend(at, count) == (if child.start == start then Right else Left, sequence - child.start, child.count)
  {
    SplitSlice(entries, start, count);
  }

  lemma ScannedClimbed(entries: seq<Digest>, sequence: nat, start: nat, count: nat, child: Span, sibling: Span)
    requires 1 <= start <= sequence < start + count && start - 1 + count <= |entries| && count >= 2
    requires (child, sibling) == ChildAndSibling(sequence, start, count)
    ensures ScannedProof(entries, sequence, start, count)
         == Climbed(ScannedProof(entries, sequence, child.start, child.count),
                    if child.start == start then Right else Left,
                    RangeRoot(entries, sibling.start, sibling.count))
  {
    SpansAreSubtrees(entries, sequence, start, count);
    OneLevel(Slice(entries, start, count), sequence - start);
  }

  lemma VisitUnfolds(entryHash: Digest, sequence: nat, start: nat, count: nat, nodes: Index)
    requires start <= sequence < start + count && count >= 2
    ensures
      var (child, sibling) := ChildAndSibling(sequence, start, count);
      var below := Visit(entryHash, sequence, child.start, child.count, nodes);
      var hash := RangeHash(sibling.start, sibling.count, nodes);
      below.Some? && hash.Some? ==>
        Visit(entryHash, sequence, start, count, nodes)
        == Some(Climbed(below.value, if child.start == start then Right else Left, hash.value))
  {
  }

  lemma VisitStep(entries: seq<Digest>, nodes: Index, sequence: nat, start: nat, count: nat)
    requires 1 <= start <= sequence < start + count && start - 1 + count <= |entries| && count >= 2
    ensures
      var (child, sibling) := ChildAndSibling(sequence, start, count);
      && Visit(entries[sequence - 1], sequence, child.start, child.count, nodes)
         == Some(ScannedProof(entries, sequence, child.start, child.count))
      && RangeHash(sibling.start, sibling.count, nodes) == Some(RangeRoot(entries, sibling.start, sibling.count)) ==>
        Visit(entries[sequence - 1], sequence, start, count, nodes)
        == Some(ScannedProof(entries, sequence, start, count))
  {
    var (child, sibling) := ChildAndSibling(sequence, start, count);
    VisitUnfolds(entries[sequence - 1], sequence, start, count, nodes);
    ScannedClimbed(entries, sequence, start, count, child, sibling);
  }

  lemma VisitLeaf(entries: seq<Digest>, nodes: Index, sequence: nat)
    requires 1 <= sequence <= |entries|
    ensures Visit(entries[sequence - 1], sequence, sequence, 1, nodes) == Some(ScannedProof(entries, sequence, sequence, 1))
  {
    assert Slice(entries, sequence, 1) == [entries[sequence - 1]];
  }

  lemma SpansInBlocks(sequence: nat, start: nat, count: nat, e: nat)
    requires start <= sequence < start + count && count >= 2 && InBlock(start, count, e)
    ensures var ((child, sibling), d) := (ChildAndSibling(sequence, start, count), FloorLog2(count - 1));
      && InBlock(child.start, child.count, d) && InBlock(sibling.start, sibling.count, d)
      && child.start + child.count <= start + count && sibling.start + sibling.count <= start + count
  {
    SplitAligned(start, count, e, FloorLog2(count - 1), LeftSize(count));
  }

  lemma {:induction false} VisitCorrect(entries: seq<Digest>, nodes: Index, sequence: nat, start: nat, count: nat,
                                        e: nat)
    requires IndexExact(entries, nodes)
    requires 1 <= start <= sequence < start + count && start - 1 + count <= |entries|
    requires InBlock(start, count, e)
    ensures Visit(entries[sequence - 1], sequence, start, count, nodes)
         == Some(ScannedProof(entries, sequence, start, count))
    decreases count
  {
    if count == 1 {
      VisitLeaf(entries, nodes, sequence);
    } else {
      var d := FloorLog2(count - 1);
      var (child, sibling) := ChildAndSibling(sequence, start, count);
      SpansInBlocks(sequence, start, count, e);
      VisitCorrect(entries, nodes, sequence, child.start, child.count, d);
      RangeHashCorrect(entries, nodes, sibling.start, sibling.count, d);
      VisitStep(entries, nodes, sequence, start, count);
    }
  }

  lemma {:induction false} Pow2Exceeds(n: nat)
    ensures n <= Pow2(n) && AlignedTo(0, n)
  {
    if n > 0 {
      Pow2Exceeds(n - 1);
    }
  }

  /** From an exact index every checkpoint size up to the present can be proved, historical ones
      included: the proof never fails, and gives that checkpoint's root and audit path. */
  lemma CreateProofCorrect(entries: seq<Digest>, nodes: Index, sequence: nat, size: nat)
    requires IndexExact(entries, nodes) && 1 <= sequence <= size <= |entries|
    ensures CreateMerkleProof(entries[sequence - 1], sequence, size, nodes)
         == Some(MerkleProof(TreeRoot(entries[..size]), AuditPath(entries[..size], sequence - 1)))
  {
    Pow2Exceeds(size);
    VisitCorrect(entries, nodes, sequence, 1, size, size);
    assert Slice(entries, 1, size) == entries[..size];
  }

  // ---------- Which nodes a proof needs ----------

  function CompleteNodeRanges(start: nat, size: nat): seq<NodeRange>
    requires size >= 1
    decreases size
  {
    if size == 1 || IsPow2(size) then [NodeRange(start, FloorLog2(size))]
    else
      var leftSize := LeftSize(size);
      CompleteNodeRanges(start, leftSize) + CompleteNodeRanges(start + leftSize, size - leftSize)
  }

  function RequiredNodes(sequence: nat, start: nat, count: nat): seq<NodeRange>
    requires start <= sequence < start + count
    decreases count
  {
    if count == 1 then []
    else
      var (child, sibling) := ChildAndSibling(sequence, start, count);
      CompleteNodeRanges(sibling.start, sibling.count) + RequiredNodes(sequence, child.start, child.count)
  }

  ghost predicate AgreeOn(a: Index, b: Index, ranges: seq<NodeRange>) {
    forall range :: range in ranges ==> (range in a <==> range in b) && (range in a ==> a[range] == b[range])
  }

  lemma AgreeOnParts(a: Index, b: Index, x: seq<NodeRange>, y: seq<NodeRange>)
    requires AgreeOn(a, b, x + y)
    ensures AgreeOn(a, b, x) && AgreeOn(a, b, y)
  {
    assert forall range :: range in x || range in y ==> range in x + y;
  }

  lemma SplitReads(start: nat, count: nat, k: nat, a: Index, b: Index)
    requires count >= 2 && !IsPow2(count) && k == LeftSize(count)
    ensures CompleteNodeRanges(start, count) == CompleteNodeRanges(start, k) + CompleteNodeRanges(start + k, count - k)
    ensures && RangeHash(start, k, a) == RangeHash(start, k, b)
            && RangeHash(start + k, count - k, a) == RangeHash(start + k, count - k, b)
            ==> RangeHash(start, count, a) == RangeHash(start, count, b)
  {
  }

  lemma {:induction false} RangeHashReads(start: nat, count: nat, a: Index, b: Index)
    requires count >= 1 && AgreeOn(a, b, CompleteNodeRanges(start, count))
    ensures RangeHash(start, count, a) == RangeHash(start, count, b)
    decreases count
  {
    if IsPow2(count) {
      assert NodeRange(start, FloorLog2(count)) in CompleteNodeRanges(start, count);
    } else if count >= 2 {
      var k := LeftSize(count);
      SplitReads(start, count, k, a, b);
      AgreeOnParts(a, b, CompleteNodeRanges(start, k), CompleteNodeRanges(start + k, count - k));
      RangeHashReads(start, k, a, b);
      RangeHashReads(start + k, count - k, a, b);
    }
  }

  lemma {:induction false} VisitReads(entryHash: Digest, sequence: nat, start: nat, count: nat, a: Index, b: Index)
    requires start <= sequence < start + count && AgreeOn(a, b, RequiredNodes(sequence, start, count))
    ensures Visit(entryHash, sequence, start, count, a) == Visit(entryHash, sequence, start, count, b)
    decreases count
  {
    if count > 1 {
      var (child, sibling) := ChildAndSibling(sequence, start, count);
      AgreeOnParts(a, b, CompleteNodeRanges(sibling.start, sibling.count),
                   RequiredNodes(sequence, child.start, child.count));
      VisitReads(entryHash, sequence, child.start, child.count, a, b);
      RangeHashReads(sibling.start, sibling.count, a, b);
    }
  }

  /** Loading just the listed nodes is enough: any index that agrees on them gives the same proof. */
  lemma RequiredNodesSuffice(entryHash: Digest, sequence: nat, size: nat, a: Index, b: Index)
    requires 1 <= sequence <= size && AgreeOn(a, b, RequiredNodes(sequence, 1, size))
    ensures CreateMerkleProof(entryHash, sequence, size, a) == CreateMerkleProof(entryHash, sequence, size, b)
  {
    VisitReads(entryHash, sequence, 1, size, a, b);
  }

  // ---------- Maintaining the index ----------

  lemma Pow2Root(entries: seq<Digest>, start: nat, level: nat)
    requires start >= 1 && start - 1 + Pow2(level + 1) <= |entries|
    ensures RangeRoot(entries, start, Pow2(level + 1))
         == NodeDigest(RangeRoot(entries, start, Pow2(level)),
                       RangeRoot(entries, start + Pow2(level), Pow2(level)))
  {
    var p := Pow2(level);
    FloorLog2Unique(2 * p - 1, level);
    SplitSlice(entries, start, 2 * p);
  }

  /** The aligned subtree of `2^level` entries that ends at position `n`. */
  ghost predicate EndsAt(range: NodeRange, n: nat, level: nat) {
    && AlignedTo(n, level)
    && Pow2(level) <= n
    && range == NodeRange(n - Pow2(level) + 1, level)
  }

  ghost predicate CompletedAt(node: MerkleNode, entries: seq<Digest>, level: nat) {
    && EndsAt(node.range, |entries|, level)
    && node.hash == RangeRoot(entries, node.range.start, Pow2(level))
  }

  ghost predicate AllCompleted(added: seq<MerkleNode>, entries: seq<Digest>) {
    forall l :: 0 <= l < |added| ==> CompletedAt(added[l], entries, l)
  }

  lemma SiblingComplete(n: nat, level: nat)
    requires n >= 1 && AlignedTo(n, level + 1)
    ensures 2 * Pow2(level) <= n && Complete(NodeRange(n - 2 * Pow2(level) + 1, level), n - 1)
  {
    AlignedAtLeast(n, level + 1);
    AlignedDown(n, level, level + 1);
    Pow2Aligned(level, level + 1);
    AlignedSum(2 * Pow2(level), n - 2 * Pow2(level), level);
  }

  lemma SliceOfGrown(entries: seq<Digest>, entryHash: Digest, start: nat, count: nat)
    requires start >= 1 && count >= 1 && start - 1 + count <= |entries|
    ensures RangeRoot(entries + [entryHash], start, count) == RangeRoot(entries, start, count)
  {
    assert Slice(entries + [entryHash], start, count) == Slice(entries, start, count);
  }

  lemma SiblingRead(entries: seq<Digest>, nodes: Index, level: nat, key: NodeRange)
    requires NodeExact(entries, nodes, key) && AlignedTo(|entries| + 1, level + 1)
    requires key.start == |entries| + 1 - 2 * Pow2(level) + 1 && key.level == level
    ensures 2 * Pow2(level) <= |entries| + 1
    ensures key in nodes && nodes[key] == RangeRoot(entries, key.start, Pow2(level))
  {
    SiblingComplete(|entries| + 1, level);
    assert Complete(key, |entries|);
  }

  lemma EndsNext(n: nat, level: nat, start: nat)
    requires AlignedTo(n, level + 1) && 2 * Pow2(level) <= n && start == n - 2 * Pow2(level) + 1
    ensures EndsAt(NodeRange(start, level + 1), n, level + 1) && Pow2(level + 1) == 2 * Pow2(level)
  {
  }

  lemma HashNext(entries: seq<Digest>, start: nat, level: nat, left: Digest, right: Digest)
    requires start >= 1 && start - 1 + 2 * Pow2(level) <= |entries|
    requires left == RangeRoot(entries, start, Pow2(level))
    requires right == RangeRoot(entries, start + Pow2(level), Pow2(level))
    ensures NodeDigest(left, right) == RangeRoot(entries, start, Pow2(level + 1))
  {
    Pow2Root(entries, start, level);
  }

  lemma CompletedNext(entries: seq<Digest>, node: MerkleNode, level: nat, start: nat, left: Digest)
    requires CompletedAt(node, entries, level)
    requires AlignedTo(|entries|, level + 1) && 2 * Pow2(level) <= |entries|
    requires start == |entries| - 2 * Pow2(level) + 1
    requires left == RangeRoot(entries, start, Pow2(level))
    ensures CompletedAt(MerkleNode(NodeRange(start, level + 1), NodeDigest(left, node.hash)), entries, level + 1)
  {
    EndsNext(|entries|, level, start);
    HashNext(entries, start, level, left, node.hash);
  }

  lemma AllCompletedSnoc(entries: seq<Digest>, list: seq<MerkleNode>, node: MerkleNode)
    requires AllCompleted(list, entries) && CompletedAt(node, entries, |list|)
    ensures AllCompleted(list + [node], entries)
  {
  }

  lemma AppendStep(entries: seq<Digest>, entryHash: Digest, nodes: Index, node: MerkleNode, level: nat, key: NodeRange)
    requires NodeExact(entries, nodes, key) && CompletedAt(node, entries + [entryHash], level)
    requires AlignedTo(|entries| + 1, level + 1)
    requires node.range.start == key.start + Pow2(level) && key.level == level
    ensures key in nodes
    ensures CompletedAt(MerkleNode(NodeRange(key.start, level + 1), NodeDigest(nodes[key], node.hash)),
                        entries + [entryHash], level + 1)
  {
    SiblingRead(entries, nodes, level, key);
    SliceOfGrown(entries, entryHash, key.start, Pow2(level));
    CompletedNext(entries + [entryHash], node, level, key.start, nodes[key]);
  }

  /** The nodes a new last entry completes: its leaf, then every subtree that ends with it. On an
      exact index the lookup of the left sibling never fails. */
  method MerkleAppendNodes(sequence: nat, entryHash: Digest, nodes: Index, ghost entries: seq<Digest>)
    returns (result: Option<seq<MerkleNode>>)
    requires sequence == |entries| + 1
    ensures IndexExact(entries, nodes) ==> result.Some?
    ensures result.Some? && IndexExact(entries, nodes) ==>
      && result.value != []
      && AllCompleted(result.value, entries + [entryHash])
      && !AlignedTo(sequence, |result.value|)
  {
    ghost var grown := entries + [entryHash];
    ghost var exact := IndexExact(entries, nodes);
    var current := MerkleNode(NodeRange(sequence, 0), LeafDigest(entryHash));
    var list := [current];
    assert Slice(grown, sequence, 1) == [entryHash];
    while sequence % Pow2(current.range.level + 1) == 0
      invariant list != [] && current == list[|list| - 1] && current.range.level == |list| - 1
      invariant Pow2(current.range.level) <= sequence
      invariant current.range.start == sequence - Pow2(current.range.level) + 1
      invariant exact ==> AllCompleted(list, grown)
      decreases sequence - Pow2(current.range.level)
    {
      var level := current.range.level;
      AlignedIsDivisible(sequence, level + 1);
      AlignedAtLeast(sequence, level + 1);
      var leftStart := current.range.start - Pow2(level);
      var key := NodeRange(leftStart, level);
      if exact {
        assert CompletedAt(current, grown, level);
        assert NodeExact(entries, nodes, key);
        AppendStep(entries, entryHash, nodes, current, level, key);
        AllCompletedSnoc(grown, list, MerkleNode(NodeRange(leftStart, level + 1), NodeDigest(nodes[key], current.hash)));
      }
      if key !in nodes {
        return None;
      }
      current := MerkleNode(NodeRange(leftStart, level + 1), NodeDigest(nodes[key], current.hash));
      list := list + [current];
    }
    AlignedIsDivisible(sequence, current.range.level + 1);
    result := Some(list);
  }

  function WithNodes(nodes: Index, added: seq<MerkleNode>): Index {
    if added == [] then nodes
    else WithNodes(nodes, added[..|added| - 1])[added[|added| - 1].range := added[|added| - 1].hash]
  }

  ghost predicate Replaced(added: seq<MerkleNode>, range: NodeRange) {
    range.level < |added| && added[range.level].range == range
  }

  /** What each level of the index holds after an append. */
  lemma {:induction false} WithNodesLookup(nodes: Index, added: seq<MerkleNode>, range: NodeRange)
    requires forall l :: 0 <= l < |added| ==> added[l].range.level == l
    ensures Replaced(added, range) ==>
      range in WithNodes(nodes, added) && WithNodes(nodes, added)[range] == added[range.level].hash
    ensures !Replaced(added, range) ==>
      && (range in WithNodes(nodes, added) <==> range in nodes)
      && (range in nodes ==> WithNodes(nodes, added)[range] == nodes[range])
  {
    if added != [] {
      WithNodesLookup(nodes, added[..|added| - 1], range);
    }
  }

  lemma AlignedMinusPow2(n: nat, level: nat, start: nat)
    requires start + Pow2(level) == n
    ensures AlignedTo(n, level) <==> AlignedTo(start, level)
  {
    Pow2Aligned(level, level);
    if AlignedTo(n, level) || AlignedTo(start, level) {
      AlignedSum(Pow2(level), start, level);
    }
  }

  /** A new last position completes exactly the aligned subtrees that end there. */
  lemma CompleteAfterAppend(n: nat, depth: nat, range: NodeRange)
    requires n >= 1 && !AlignedTo(n, depth)
    ensures Complete(range, n)
       <==> Complete(range, n - 1) || (range.level < depth && EndsAt(range, n, range.level))
    ensures EndsAt(range, n, range.level) ==> !Complete(range, n - 1)
  {
    if range.start >= 1 && range.start - 1 + Pow2(range.level) == n {
      AlignedMinusPow2(n, range.level, range.start - 1);
      if depth <= range.level && AlignedTo(n, range.level) {
        AlignedDown(n, depth, range.level);
      }
    }
  }

  /** The nodes of an append replace exactly the ranges that end with the last entry, by their roots. */
  lemma ReplacedExactly(entries: seq<Digest>, added: seq<MerkleNode>, range: NodeRange)
    requires AllCompleted(added, entries)
    ensures Replaced(added, range) <==> range.level < |added| && EndsAt(range, |entries|, range.level)
    ensures Replaced(added, range) ==> added[range.level].hash == RangeRoot(entries, range.start, Pow2(range.level))
    ensures forall l :: 0 <= l < |added| ==> added[l].range.level == l
  {
    forall l | 0 <= l < |added| ensures added[l].range.level == l {
      assert CompletedAt(added[l], entries, l);
    }
    if range.level < |added| {
      assert CompletedAt(added[range.level], entries, range.level);
    }
  }

  lemma LookupAfterAppend(entries: seq<Digest>, nodes: Index, added: seq<MerkleNode>, range: NodeRange)
    requires AllCompleted(added, entries)
    ensures
      var all := WithNodes(nodes, added);
      if range.level < |added| && EndsAt(range, |entries|, range.level)
      then range in all && all[range] == RangeRoot(entries, range.start, Pow2(range.level))
      else (range in all <==> range in nodes) && (range in nodes ==> all[range] == nodes[range])
  {
    ReplacedExactly(entries, added, range);
    WithNodesLookup(nodes, added, range);
  }

  lemma AppendKeepsNode(entries: seq<Digest>, entryHash: Digest, nodes: Index, added: seq<MerkleNode>, range: NodeRange)
    requires NodeExact(entries, nodes, range)
    requires AllCompleted(added, entries + [entryHash]) && !AlignedTo(|entries| + 1, |added|)
    ensures NodeExact(entries + [entryHash], WithNodes(nodes, added), range)
    ensures range in nodes ==> range in WithNodes(nodes, added) && WithNodes(nodes, added)[range] == nodes[range]
  {
    var grown := entries + [entryHash];
    LookupAfterAppend(grown, nodes, added, range);
    CompleteAfterAppend(|grown|, |added|, range);
    if Complete(range, |entries|) {
      SliceOfGrown(entries, entryHash, range.start, Pow2(range.level));
    }
  }

  /** Adding the completed nodes keeps the index exact, and never changes a stored node. */
  lemma AppendKeepsIndexExact(entries: seq<Digest>, entryHash: Digest, nodes: Index, added: seq<MerkleNode>)
    requires IndexExact(entries, nodes)
    requires AllCompleted(added, entries + [entryHash]) && !AlignedTo(|entries| + 1, |added|)
    ensures IndexExact(entries + [entryHash], WithNodes(nodes, added))
    ensures forall range :: range in nodes ==>
      range in WithNodes(nodes, added) && WithNodes(nodes, added)[range] == nodes[range]
  {
    forall range
      ensures NodeExact(entries + [entryHash], WithNodes(nodes, added), range)
      ensures range in nodes ==> range in WithNodes(nodes, added) && WithNodes(nodes, added)[range] == nodes[range]
    {
      assert NodeExact(entries, nodes, range);
      AppendKeepsNode(entries, entryHash, nodes, added, range);
    }
  }

  /** No stored node is ever changed or dropped. */
  ghost predicate KeepsNodes(before: Index, after: Index) {
    forall range :: range in before ==> range in after && after[range] == before[range]
  }

  /** Extends the index by one entry; on an exact index it always succeeds. */
  method AppendToIndex(sequence: nat, entryHash: Digest, nodes: Index, ghost entries: seq<Digest>)
    returns (next: Option<Index>)
    requires sequence == |entries| + 1
    ensures IndexExact(entries, nodes) ==>
      && next.Some?
      && IndexExact(entries + [entryHash], next.value)
      && KeepsNodes(nodes, next.value)
  {
    var completed := MerkleAppendNodes(sequence, entryHash, nodes, entries);
    if completed.None? {
      return None;
    }
    var added := completed.value;
    var index := nodes;
    for i := 0 to |added|
      invariant index == WithNodes(nodes, added[..i])
    {
      assert added[..i + 1][..i] == added[..i];
      index := index[added[i].range := added[i].hash];
    }
    assert added[..|added|] == added;
    if IndexExact(entries, nodes) {
      AppendKeepsIndexExact(entries, entryHash, nodes, added);
    }
    next := Some(index);
  }
}
