// Offline verification of transparency evidence: the legacy hash chain (v1 checkpoints) and
// the Merkle inclusion proof (v2 checkpoints). An Ed25519 check is a Boolean parameter.
module Transparency {
  import opened JsNumbers
  import opened Wrappers
  import opened Digests
  import opened Lists
  import opened MerkleTree

  predicate PositiveUnixSeconds(n: int) {
    SafeInteger(n) && n > 0
  }

  /** The accepted authorization; its shape has been checked by the caller. */
  datatype Acceptance = Acceptance(
    sequence: int,
    authorizationHash: Digest,
    acceptedAt: int,
    previousEntryHash: Option<Digest>,
    entryHash: Digest,
    issuer: string,
    keyId: string)
  {
    /** What the check relies on that the receipt verifier has established about an acceptance before. */
    predicate ShapeValid() {
      sequence > 0
    }
  }

  /** `shapeValid` stands for the field list and the chain, contract, transaction and block formats. */
  datatype Anchor = Anchor(
    shapeValid: bool,
    anchoredAt: int,
    size: int,
    headEntryHash: HashText,
    merkleRoot: Option<HashText>)

  predicate ValidTransparencyAnchor(anchor: Anchor) {
    && anchor.shapeValid
    && SafeInteger(anchor.anchoredAt) && anchor.anchoredAt >= 0
    && SafeInteger(anchor.size) && anchor.size > 0
    && anchor.headEntryHash.Hex?
    && (anchor.merkleRoot.Some? ==> anchor.merkleRoot.value.Hex?)
  }

  /** `shapeValid` stands for the field list, the domain, the algorithm and a signature being present. */
  datatype Checkpoint = Checkpoint(
    shapeValid: bool,
    issuer: string,
    keyId: string,
    issuedAt: int,
    size: int,
    headEntryHash: HashText,
    merkleRoot: HashText,
    anchor: Option<Anchor>)

  predicate CheckpointMatches(checkpoint: Checkpoint, acceptance: Acceptance) {
    && checkpoint.shapeValid
    && checkpoint.issuer == acceptance.issuer
    && checkpoint.keyId == acceptance.keyId
    && PositiveUnixSeconds(checkpoint.issuedAt)
    && checkpoint.issuedAt >= acceptance.acceptedAt
    && SafeInteger(checkpoint.size)
    && checkpoint.headEntryHash.Hex?
  }

  // ---------- Version 1: the hash chain ----------

  /** `onlyFields` says that the entry has no field besides these. */
  datatype ChainEntry = ChainEntry(
    onlyFields: bool,
    sequence: int,
    authorizationHash: HashText,
    acceptedAt: int,
    previousEntryHash: Option<HashText>,
    entryHash: HashText)
  {
    predicate ShapeValid() {
      && onlyFields
      && SafeInteger(sequence) && sequence >= 1
      && PositiveUnixSeconds(acceptedAt)
      && authorizationHash.Hex? && entryHash.Hex?
      && (previousEntryHash.Some? ==> previousEntryHash.value.Hex?)
    }

    /** The digest the entry should carry. */
    function Recomputed(): Digest
      requires ShapeValid()
    {
      LogEntryDigest(sequence, authorizationHash.digest, acceptedAt,
                     if previousEntryHash.Some? then Some(previousEntryHash.value.digest) else None)
    }

    predicate SelfConsistent() {
      ShapeValid() && entryHash.digest == Recomputed()
    }

    predicate Follows(previous: ChainEntry) {
      sequence == previous.sequence + 1 && previousEntryHash == Some(previous.entryHash)
    }
  }

  ghost predicate Linked(chain: seq<ChainEntry>) {
    && (forall i :: 0 <= i < |chain| ==> chain[i].SelfConsistent())
    && (forall i :: 0 < i < |chain| ==> chain[i].Follows(chain[i - 1]))
  }

  ghost predicate AnchorsChain(checkpoint: Checkpoint, executedAt: int) {
    checkpoint.anchor.Some? ==>
      var anchor := checkpoint.anchor.value;
      && ValidTransparencyAnchor(anchor)
      && anchor.merkleRoot.None?
      && anchor.size == checkpoint.size
      && anchor.headEntryHash == checkpoint.headEntryHash
      && anchor.anchoredAt <= executedAt
  }

  ghost predicate ChainAccepted(chain: seq<ChainEntry>, checkpoint: Checkpoint, acceptance: Acceptance,
                                executedAt: int, signed: bool)
  {
    && CheckpointMatches(checkpoint, acceptance)
    && checkpoint.size >= 1
    && chain != []
    && chain[0].sequence == acceptance.sequence
    && chain[0].entryHash == Hex(acceptance.entryHash)
    && Linked(chain)
    && chain[|chain| - 1].entryHash == checkpoint.headEntryHash
    && chain[|chain| - 1].sequence == checkpoint.size
    && AnchorsChain(checkpoint, executedAt)
    && signed
  }

  method VerifyHashChain(chain: seq<ChainEntry>, checkpoint: Checkpoint, acceptance: Acceptance,
                         executedAt: int, signed: bool)
    returns (ok: bool)
    ensures ok == ChainAccepted(chain, checkpoint, acceptance, executedAt, signed)
  {
    if !CheckpointMatches(checkpoint, acceptance) || checkpoint.size < 1 || chain == [] {
      return false;
    }
    var first := chain[0];
    if first.sequence != acceptance.sequence || first.entryHash != Hex(acceptance.entryHash) {
      return false;
    }
    for index := 0 to |chain|
      invariant forall i :: 0 <= i < index ==> chain[i].SelfConsistent()
      invariant forall i :: 0 < i < index ==> chain[i].Follows(chain[i - 1])
    {
      var entry := chain[index];
      if !entry.ShapeValid() {
        return false;
      }
      if entry.entryHash.digest != entry.Recomputed() {
        return false;
      }
      if index > 0 && (entry.sequence != chain[index - 1].sequence + 1
                       || entry.previousEntryHash != Some(chain[index - 1].entryHash)) {
        assert !entry.Follows(chain[index - 1]);
        return false;
      }
    }
    var last := chain[|chain| - 1];
    if last.entryHash != checkpoint.headEntryHash || last.sequence != checkpoint.size {
      return false;
    }
    if checkpoint.anchor.Some? {
      var anchor := checkpoint.anchor.value;
      if !ValidTransparencyAnchor(anchor) || anchor.merkleRoot.Some? || anchor.size != checkpoint.size
         || anchor.headEntryHash != checkpoint.headEntryHash || anchor.anchoredAt > executedAt {
        return false;
      }
    }
    return signed;
  }

  lemma {:induction false} ChainSequences(chain: seq<ChainEntry>, i: nat)
    requires Linked(chain) && i < |chain|
    ensures chain[i].sequence == chain[0].sequence + i
  {
    if i > 0 {
      ChainSequences(chain, i - 1);
      assert chain[i].Follows(chain[i - 1]);
    }
  }

  lemma {:induction false} ChainSuffix(a: seq<ChainEntry>, b: seq<ChainEntry>)
    requires Linked(a) && Linked(b) && 0 < |a| <= |b|
    requires a[|a| - 1].entryHash == b[|b| - 1].entryHash
    ensures a == b[|b| - |a|..]
    decreases |a|
  {
    var x, y := a[|a| - 1], b[|b| - 1];
    assert x.SelfConsistent() && y.SelfConsistent();
    assert x == y by {
      assert x.Recomputed() == y.Recomputed();
    }
    if |a| > 1 {
      var a', b' := a[..|a| - 1], b[..|b| - 1];
      assert x.Follows(a[|a| - 2]) && y.Follows(b[|b| - 2]);
      assert Linked(a') && Linked(b');
      ChainSuffix(a', b');
      assert a == a' + [x] && b[|b| - |a|..] == b'[|b'| - |a'|..] + [y];
    } else {
      assert b[|b| - 1..] == [y];
    }
  }

  /** Two accepted chains with one head hash tell one history: the shorter is a suffix of the
      longer, they agree wherever both have an entry, and each spans acceptance to checkpoint. */
  lemma HashChainsCommit(
      a: seq<ChainEntry>, ca: Checkpoint, acca: Acceptance, ta: int, sa: bool,
      b: seq<ChainEntry>, cb: Checkpoint, accb: Acceptance, tb: int, sb: bool)
    requires ChainAccepted(a, ca, acca, ta, sa) && ChainAccepted(b, cb, accb, tb, sb)
    requires ca.headEntryHash == cb.headEntryHash
    ensures |a| == ca.size - acca.sequence + 1 && |b| == cb.size - accb.sequence + 1
    ensures ca.size == cb.size
    ensures |a| <= |b| ==> a == b[|b| - |a|..]
    ensures |b| <= |a| ==> b == a[|a| - |b|..]
    ensures forall i, j :: 0 <= i < |a| && 0 <= j < |b| && a[i].sequence == b[j].sequence ==> a[i] == b[j]
  {
    ChainSequences(a, |a| - 1);
    ChainSequences(b, |b| - 1);
    if |a| <= |b| {
      ChainSuffix(a, b);
    }
    if |b| <= |a| {
      ChainSuffix(b, a);
    }
    forall i, j | 0 <= i < |a| && 0 <= j < |b| && a[i].sequence == b[j].sequence
      ensures a[i] == b[j]
    {
      ChainSequences(a, i);
      ChainSequences(b, j);
      assert ca.size == cb.size;
      assert j - i == |b| - |a|;
    }
  }

  // ---------- Version 2: the Merkle inclusion proof ----------

  /** `onlyFields` says that the step has no field besides these. */
  datatype ProofStep = ProofStep(onlyFields: bool, side: Side, hash: HashText) {
    predicate WellFormed() {
      onlyFields && hash.Hex?
    }
  }

  ghost predicate WellFormedProof(proof: seq<ProofStep>) {
    forall i :: 0 <= i < |proof| ==> proof[i].WellFormed()
  }

  ghost function PathOf(proof: seq<ProofStep>): (path: seq<Step>)
    requires WellFormedProof(proof)
    ensures |path| == |proof|
  {
    seq(|proof|, i requires 0 <= i < |proof| => Step(proof[i].side, proof[i].hash.digest))
  }

  lemma AppendAssociative<T>(a: seq<T>, b: seq<T>, c: seq<T>)
    ensures a + (b + c) == a + b + c
  {
  }

  lemma DescendSides(index: nat, count: nat, downward: seq<Side>, side: Side, at: nat, m: nat)
    requires index < count && count > 1 && (side, at, m) == Descend(index, count)
    ensures PathSides(index, count) + Reversed(downward) == PathSides(at, m) + Reversed(downward + [side])
  {
    ReversedSnoc(downward, side);
    AppendAssociative(PathSides(at, m), [side], Reversed(downward));
    assert PathSides(index, count) == PathSides(at, m) + [side];
  }

  /** Derives the sides a proof for `sequence` must have, from the leaf upwards. */
  method ExpectedSides(sequence: int, size: int) returns (sides: seq<Side>)
    requires 1 <= sequence <= size
    ensures sides == PathSides(sequence - 1, size)
  {
    var start, count := 1, size;
    sides := [];
    assert PathSides(sequence - 1, size) == PathSides(sequence - 1, size) + Reversed([]);
    while count > 1
      invariant count >= 1 && start <= sequence < start + count
      invariant PathSides(sequence - 1, size) == PathSides(sequence - start, count) + Reversed(sides)
    {
      var leftCount := LeftSize(count);
      var containsLeft := sequence < start + leftCount;
      ghost var (side, at, m) := Descend(sequence - start, count);
      DescendSides(sequence - start, count, sides, side, at, m);
      sides := sides + [if containsLeft then Right else Left];
      if !containsLeft {
        start := start + leftCount;
      }
      count := if containsLeft then leftCount else count - leftCount;
    }
    sides := Reversed(sides);
  }

  ghost predicate AnchorsRoot(checkpoint: Checkpoint, executedAt: int) {
    checkpoint.anchor.Some? ==>
      var anchor := checkpoint.anchor.value;
      && ValidTransparencyAnchor(anchor)
      && anchor.merkleRoot == Some(checkpoint.merkleRoot)
      && anchor.headEntryHash == checkpoint.headEntryHash
      && anchor.size == checkpoint.size
      && anchor.anchoredAt <= executedAt
  }

  /** The part of the check that looks at the proof. */
  ghost predicate ProofAccepted(proof: seq<ProofStep>, root: HashText, entryHash: Digest, sequence: int, size: int)
    requires 1 <= sequence <= size
  {
    && WellFormedProof(proof)
    && root.Hex?
    && Included(root.digest, entryHash, sequence - 1, size, PathOf(proof))
  }

  method CheckProof(proof: seq<ProofStep>, root: HashText, entryHash: Digest, sequence: int, size: int)
    returns (ok: bool)
    requires 1 <= sequence <= size
    ensures ok == ProofAccepted(proof, root, entryHash, sequence, size)
  {
    var sides := ExpectedSides(sequence, size);
    if |proof| != |sides| {
      assert WellFormedProof(proof) ==> |SidesOf(PathOf(proof))| == |proof|;
      return false;
    }
    var hash := LeafDigest(entryHash);
    for index := 0 to |proof|
      invariant WellFormedProof(proof[..index])
      invariant forall i :: 0 <= i < index ==> proof[i].side == sides[i]
      invariant hash == Climb(LeafDigest(entryHash), PathOf(proof[..index]))
    {
      var step := proof[index];
      if !step.onlyFields || step.side != sides[index] || !step.hash.Hex? {
        assert !step.WellFormed() || (WellFormedProof(proof) ==> SidesOf(PathOf(proof))[index] != sides[index]);
        return false;
      }
      assert proof[..index + 1] == proof[..index] + [step];
      ghost var path := PathOf(proof[..index + 1]);
      assert path[..index] == PathOf(proof[..index]);
      hash := if step.side == Left then NodeDigest(step.hash.digest, hash) else NodeDigest(hash, step.hash.digest);
    }
    assert proof[..|proof|] == proof;
    assert SidesOf(PathOf(proof)) == sides;
    return root == Hex(hash);
  }

  ghost predicate MerkleAccepted(proof: Option<seq<ProofStep>>, checkpoint: Checkpoint, acceptance: Acceptance,
                                 executedAt: int, signed: bool)
    requires acceptance.ShapeValid()
  {
    && CheckpointMatches(checkpoint, acceptance)
    && acceptance.sequence <= checkpoint.size
    && acceptance.entryHash == LogEntryDigest(acceptance.sequence, acceptance.authorizationHash,
                                              acceptance.acceptedAt, acceptance.previousEntryHash)
    && proof.Some?
    && ProofAccepted(proof.value, checkpoint.merkleRoot, acceptance.entryHash, acceptance.sequence, checkpoint.size)
    && AnchorsRoot(checkpoint, executedAt)
    && signed
  }

  method VerifyMerkleTransparency(proof: Option<seq<ProofStep>>, checkpoint: Checkpoint, acceptance: Acceptance,
                                  executedAt: int, signed: bool)
    returns (ok: bool)
    requires acceptance.ShapeValid()
    ensures ok == MerkleAccepted(proof, checkpoint, acceptance, executedAt, signed)
  {
    if !CheckpointMatches(checkpoint, acceptance) || checkpoint.size < acceptance.sequence
       || !checkpoint.merkleRoot.Hex? {
      return false;
    }
    if acceptance.entryHash != LogEntryDigest(acceptance.sequence, acceptance.authorizationHash,
                                              acceptance.acceptedAt, acceptance.previousEntryHash) {
      return false;
    }
    if proof.None? {
      return false;
    }
    var included := CheckProof(proof.value, checkpoint.merkleRoot, acceptance.entryHash, acceptance.sequence,
                               checkpoint.size);
    if !included {
      return false;
    }
    if checkpoint.anchor.Some? {
      var anchor := checkpoint.anchor.value;
      if !ValidTransparencyAnchor(anchor) || anchor.merkleRoot.None?
         || anchor.merkleRoot.value != checkpoint.merkleRoot
         || anchor.headEntryHash != checkpoint.headEntryHash || anchor.size != checkpoint.size
         || anchor.anchoredAt > executedAt {
        return false;
      }
    }
    return signed;
  }

  // ---------- What acceptance asks of each field ----------

  /** The checkpoint is the acceptance's own issuer and key, made no earlier than the acceptance. */
  lemma CheckpointOnFields(checkpoint: Checkpoint, acceptance: Acceptance)
    ensures CheckpointMatches(checkpoint, acceptance)
       <==> && checkpoint.shapeValid && checkpoint.issuer == acceptance.issuer
            && checkpoint.keyId == acceptance.keyId
            && 0 < checkpoint.issuedAt < 9007199254740992 && acceptance.acceptedAt <= checkpoint.issuedAt
            && -9007199254740992 < checkpoint.size < 9007199254740992 && checkpoint.headEntryHash.Hex?
  {
  }

  /** An anchor of a Merkle checkpoint repeats its root, head and size, no later than the execution. */
  lemma RootAnchorOnFields(checkpoint: Checkpoint, executedAt: int)
    ensures AnchorsRoot(checkpoint, executedAt)
       <==> checkpoint.anchor.None? ||
            var anchor := checkpoint.anchor.value;
            && anchor.shapeValid && 0 <= anchor.anchoredAt < 9007199254740992 && anchor.anchoredAt <= executedAt
            && anchor.size == checkpoint.size && 0 < anchor.size < 9007199254740992
            && anchor.headEntryHash == checkpoint.headEntryHash && anchor.headEntryHash.Hex?
            && anchor.merkleRoot == Some(checkpoint.merkleRoot) && checkpoint.merkleRoot.Hex?
  {
  }

  /** An anchor of a chain checkpoint has no root, and repeats its head and size, no later than the execution. */
  lemma ChainAnchorOnFields(checkpoint: Checkpoint, executedAt: int)
    ensures AnchorsChain(checkpoint, executedAt)
       <==> checkpoint.anchor.None? ||
            var anchor := checkpoint.anchor.value;
            && anchor.shapeValid && 0 <= anchor.anchoredAt < 9007199254740992 && anchor.anchoredAt <= executedAt
            && anchor.size == checkpoint.size && 0 < anchor.size < 9007199254740992
            && anchor.headEntryHash == checkpoint.headEntryHash && anchor.headEntryHash.Hex?
            && anchor.merkleRoot.None?
  {
  }

  /** A Merkle receipt is accepted exactly when the acceptance hashes to its own entry, the signed checkpoint covers
      its sequence number, and the proof leads from there to the root. */
  lemma MerkleOnFields(proof: Option<seq<ProofStep>>, checkpoint: Checkpoint, acceptance: Acceptance,
                       executedAt: int, signed: bool)
    requires acceptance.ShapeValid()
    ensures MerkleAccepted(proof, checkpoint, acceptance, executedAt, signed)
       <==> && signed && proof.Some? && 1 <= acceptance.sequence <= checkpoint.size && checkpoint.merkleRoot.Hex?
            && CheckpointMatches(checkpoint, acceptance) && AnchorsRoot(checkpoint, executedAt)
            && acceptance.entryHash
            == LogEntryDigest(acceptance.sequence, acceptance.authorizationHash, acceptance.acceptedAt,
                              acceptance.previousEntryHash)
            && (forall i :: 0 <= i < |proof.value| ==> proof.value[i].onlyFields && proof.value[i].hash.Hex?)
            && WellFormedProof(proof.value)
            && SidesOf(PathOf(proof.value)) == PathSides(acceptance.sequence - 1, checkpoint.size)
            && Climb(LeafDigest(acceptance.entryHash), PathOf(proof.value)) == checkpoint.merkleRoot.digest
  {
    assert proof.Some? ==> (WellFormedProof(proof.value)
      <==> forall i :: 0 <= i < |proof.value| ==> proof.value[i].onlyFields && proof.value[i].hash.Hex?) by {
      assert proof.Some? ==> forall i :: 0 <= i < |proof.value| ==>
        (proof.value[i].WellFormed() <==> proof.value[i].onlyFields && proof.value[i].hash.Hex?);
    }
  }

  /** A chain entry carries its own digest, over fields in their ranges. */
  lemma EntryOnFields(entry: ChainEntry)
    ensures entry.SelfConsistent()
       <==> && entry.onlyFields && 1 <= entry.sequence < 9007199254740992 && 0 < entry.acceptedAt < 9007199254740992
            && entry.authorizationHash.Hex? && entry.entryHash.Hex?
            && (entry.previousEntryHash.Some? ==> entry.previousEntryHash.value.Hex?)
            && entry.entryHash.digest
            == LogEntryDigest(entry.sequence, entry.authorizationHash.digest, entry.acceptedAt,
                              match entry.previousEntryHash
                              case None => None
                              case Some(previous) => Some(previous.digest))
  {
  }

  /** A chain is accepted exactly when it runs, entry by entry, from the acceptance to the signed head. */
  lemma ChainOnFields(chain: seq<ChainEntry>, checkpoint: Checkpoint, acceptance: Acceptance,
                      executedAt: int, signed: bool)
    ensures ChainAccepted(chain, checkpoint, acceptance, executedAt, signed)
       <==> && signed && chain != [] && 1 <= checkpoint.size
            && CheckpointMatches(checkpoint, acceptance) && AnchorsChain(checkpoint, executedAt)
            && chain[0].sequence == acceptance.sequence && chain[0].entryHash == Hex(acceptance.entryHash)
            && chain[|chain| - 1].sequence == checkpoint.size
            && chain[|chain| - 1].entryHash == checkpoint.headEntryHash
            && (forall i :: 0 <= i < |chain| ==> chain[i].SelfConsistent())
            && (forall i :: 0 < i < |chain| ==> chain[i].sequence == chain[i - 1].sequence + 1)
            && (forall i :: 0 < i < |chain| ==> chain[i].previousEntryHash == Some(chain[i - 1].entryHash))
  {
    assert forall i :: 0 < i < |chain| ==> (chain[i].Follows(chain[i - 1])
      <==> chain[i].sequence == chain[i - 1].sequence + 1 && chain[i].previousEntryHash == Some(chain[i - 1].entryHash));
  }

  /** Against the root of a known log, a v2 proof is accepted for exactly one entry hash and one
      well-formed audit path per position. */
  lemma MerkleProofExact(entries: seq<Digest>, proof: seq<ProofStep>, entryHash: Digest, sequence: int)
    requires 1 <= sequence <= |entries|
    ensures ProofAccepted(proof, Hex(TreeRoot(entries)), entryHash, sequence, |entries|)
       <==> && entryHash == entries[sequence - 1]
            && WellFormedProof(proof)
            && PathOf(proof) == AuditPath(entries, sequence - 1)
  {
    if WellFormedProof(proof) {
      InclusionExact(entries, sequence - 1, entryHash, PathOf(proof));
    }
  }

  lemma {:induction false} ClimbInjective(x: Digest, y: Digest, path: seq<Step>)
    requires Climb(x, path) == Climb(y, path)
    ensures x == y
  {
    if path != [] {
      ClimbInjective(x, y, path[..|path| - 1]);
    }
  }

  /** One proof cannot serve two positions of a checkpoint. */
  lemma MerkleProofNamesPosition(proof: seq<ProofStep>, root: HashText, size: int,
                                 a: Digest, i: int, b: Digest, j: int)
    requires 1 <= i <= size && 1 <= j <= size
    requires ProofAccepted(proof, root, a, i, size) && ProofAccepted(proof, root, b, j, size)
    ensures i == j && a == b
  {
    PathSidesInjective(i - 1, j - 1, size);
    ClimbInjective(LeafDigest(a), LeafDigest(b), PathOf(proof));
  }
}
