// What the offline verifiers make of the evidence the issuer's log hands out.
module TransparencyEvidence {
  import opened Digests
  import opened JsNumbers
  import opened MerkleTree
  import opened Transparency
  import opened TransparencyLog
  import opened Wrappers

  /** The acceptance statement issued for a log entry. */
  ghost function AcceptanceOf(entry: LogEntry, issuer: string, keyId: string): Acceptance {
    Acceptance(entry.sequence, entry.authorizationHash, entry.acceptedAt, entry.previousEntryHash, entry.entryHash,
               issuer, keyId)
  }

  ghost function ProofStepsOf(path: seq<Step>): (steps: seq<ProofStep>)
    ensures |steps| == |path|
  {
    seq(|path|, i requires 0 <= i < |path| => ProofStep(true, path[i].side, Hex(path[i].hash)))
  }

  lemma ProofStepsRoundTrip(path: seq<Step>)
    ensures WellFormedProof(ProofStepsOf(path)) && PathOf(ProofStepsOf(path)) == path
  {
  }

  lemma ProofStepsUnique(proof: seq<ProofStep>, path: seq<Step>)
    ensures WellFormedProof(proof) && PathOf(proof) == path <==> proof == ProofStepsOf(path)
  {
    ProofStepsRoundTrip(path);
    if WellFormedProof(proof) && PathOf(proof) == path {
      assert forall i :: 0 <= i < |path| ==> proof[i].WellFormed() && PathOf(proof)[i] == path[i];
      assert proof == ProofStepsOf(path);
    }
  }

  /** A v2 checkpoint over the first `size` entries of a log. */
  ghost predicate RootsLog(checkpoint: Checkpoint, log: seq<LogEntry>) {
    && 1 <= checkpoint.size <= |log|
    && checkpoint.merkleRoot == Hex(TreeRoot(EntryHashes(log)[..checkpoint.size]))
  }

  /** Against an honest checkpoint, a v2 receipt is accepted for exactly the authorization that
      the log holds at its sequence number, with exactly the proof the log issues. */
  lemma MerkleEvidenceExact(log: seq<LogEntry>, checkpoint: Checkpoint, acceptance: Acceptance,
                            proof: Option<seq<ProofStep>>, executedAt: int, signed: bool)
    requires Chained(log) && RootsLog(checkpoint, log) && acceptance.ShapeValid()
    ensures MerkleAccepted(proof, checkpoint, acceptance, executedAt, signed)
       <==> && checkpoint.shapeValid && checkpoint.issuer == acceptance.issuer && checkpoint.keyId == acceptance.keyId
            && 0 < checkpoint.issuedAt < 9007199254740992 && acceptance.acceptedAt <= checkpoint.issuedAt
            && checkpoint.size < 9007199254740992 && checkpoint.headEntryHash.Hex?
            && (checkpoint.anchor.Some? ==>
              var anchor := checkpoint.anchor.value;
              && anchor.shapeValid && 0 <= anchor.anchoredAt < 9007199254740992 && anchor.anchoredAt <= executedAt
              && anchor.size == checkpoint.size && anchor.headEntryHash == checkpoint.headEntryHash
              && anchor.merkleRoot == Some(checkpoint.merkleRoot))
            && signed
            && acceptance.sequence <= checkpoint.size
            && acceptance == AcceptanceOf(log[acceptance.sequence - 1], acceptance.issuer, acceptance.keyId)
            && proof == Some(ProofStepsOf(AuditPath(EntryHashes(log)[..checkpoint.size], acceptance.sequence - 1)))
  {
    if acceptance.sequence <= checkpoint.size {
      var entries := EntryHashes(log)[..checkpoint.size];
      var path := AuditPath(entries, acceptance.sequence - 1);
      if proof.Some? {
        MerkleProofExact(entries, proof.value, acceptance.entryHash, acceptance.sequence);
        ProofStepsUnique(proof.value, path);
      }
      assert LinkedAt(log, acceptance.sequence - 1);
    }
  }

  /** The chain issued for entry `index` under a checkpoint of `size` entries. */
  ghost function ChainOf(log: seq<LogEntry>, index: nat, size: nat): (chain: seq<ChainEntry>)
    requires index <= size <= |log|
    ensures |chain| == size - index
  {
    seq(size - index, i requires 0 <= i < size - index =>
      var entry := log[index + i];
      ChainEntry(true, entry.sequence, Hex(entry.authorizationHash), entry.acceptedAt,
                 if entry.previousEntryHash.Some? then Some(Hex(entry.previousEntryHash.value)) else None,
                 Hex(entry.entryHash)))
  }

  predicate SafeSize(size: nat) {
    size <= MAX_SAFE_INTEGER
  }

  lemma ChainOfLinked(log: seq<LogEntry>, index: nat, size: nat)
    requires Chained(log) && index < size <= |log| && SafeSize(size)
    requires forall i :: 0 <= i < |log| ==> PositiveUnixSeconds(log[i].acceptedAt)
    ensures Linked(ChainOf(log, index, size))
  {
    var chain := ChainOf(log, index, size);
    forall i | 0 <= i < |chain|
      ensures chain[i].SelfConsistent() && (i > 0 ==> chain[i].Follows(chain[i - 1]))
    {
      assert LinkedAt(log, index + i);
      assert i > 0 ==> LinkedAt(log, index + i - 1);
    }
  }

  lemma ChainTail(log: seq<LogEntry>, index: nat, size: nat)
    requires index <= size <= |log|
    ensures ChainOf(log, 0, size)[index..] == ChainOf(log, index, size)
  {
  }

  /** The log and its head are those the checkpoint is about. */
  ghost predicate HeadsLog(checkpoint: Checkpoint, log: seq<LogEntry>) {
    && Chained(log) && 1 <= checkpoint.size <= |log|
    && (forall i :: 0 <= i < |log| ==> PositiveUnixSeconds(log[i].acceptedAt))
    && checkpoint.headEntryHash == Hex(log[checkpoint.size - 1].entryHash)
  }

  lemma IssuedChainAccepted(log: seq<LogEntry>, checkpoint: Checkpoint, acceptance: Acceptance, executedAt: int)
    requires HeadsLog(checkpoint, log) && acceptance.ShapeValid() && acceptance.sequence <= checkpoint.size
    requires CheckpointMatches(checkpoint, acceptance) && AnchorsChain(checkpoint, executedAt)
    requires acceptance.entryHash == log[acceptance.sequence - 1].entryHash
    ensures ChainAccepted(ChainOf(log, acceptance.sequence - 1, checkpoint.size), checkpoint, acceptance, executedAt, true)
  {
    ChainOfLinked(log, acceptance.sequence - 1, checkpoint.size);
    assert LinkedAt(log, acceptance.sequence - 1) && LinkedAt(log, checkpoint.size - 1);
  }

  lemma AcceptedChainIssued(log: seq<LogEntry>, checkpoint: Checkpoint, acceptance: Acceptance, chain: seq<ChainEntry>,
                            executedAt: int, signed: bool)
    requires HeadsLog(checkpoint, log) && acceptance.ShapeValid()
    requires ChainAccepted(chain, checkpoint, acceptance, executedAt, signed)
    ensures acceptance.sequence <= checkpoint.size
    ensures chain == ChainOf(log, acceptance.sequence - 1, checkpoint.size)
    ensures acceptance.entryHash == log[acceptance.sequence - 1].entryHash
  {
    var all := ChainOf(log, 0, checkpoint.size);
    assert LinkedAt(log, checkpoint.size - 1);
    ChainOfLinked(log, 0, checkpoint.size);
    ChainSequences(chain, |chain| - 1);
    assert |chain| == checkpoint.size - acceptance.sequence + 1;
    ChainSuffix(chain, all);
    ChainTail(log, acceptance.sequence - 1, checkpoint.size);
  }

  /** Against an honest head, a v1 receipt is accepted for exactly the authorization that the log
      holds at its sequence number, with exactly the chain the log issues. */
  lemma ChainEvidenceExact(log: seq<LogEntry>, checkpoint: Checkpoint, acceptance: Acceptance,
                           chain: seq<ChainEntry>, executedAt: int, signed: bool)
    requires HeadsLog(checkpoint, log) && acceptance.ShapeValid()
    ensures ChainAccepted(chain, checkpoint, acceptance, executedAt, signed)
       <==> && checkpoint.shapeValid && checkpoint.issuer == acceptance.issuer && checkpoint.keyId == acceptance.keyId
            && 0 < checkpoint.issuedAt < 9007199254740992 && acceptance.acceptedAt <= checkpoint.issuedAt
            && checkpoint.size < 9007199254740992 && checkpoint.headEntryHash.Hex?
            && (checkpoint.anchor.Some? ==>
              var anchor := checkpoint.anchor.value;
              && anchor.shapeValid && 0 <= anchor.anchoredAt < 9007199254740992 && anchor.anchoredAt <= executedAt
              && anchor.size == checkpoint.size && anchor.headEntryHash == checkpoint.headEntryHash
              && anchor.merkleRoot.None?)
            && signed
            && acceptance.sequence <= checkpoint.size
            && acceptance.entryHash == log[acceptance.sequence - 1].entryHash
            && chain == ChainOf(log, acceptance.sequence - 1, checkpoint.size)
  {
    if ChainAccepted(chain, checkpoint, acceptance, executedAt, signed) {
      AcceptedChainIssued(log, checkpoint, acceptance, chain, executedAt, signed);
    } else if CheckpointMatches(checkpoint, acceptance) && AnchorsChain(checkpoint, executedAt)
              && acceptance.sequence <= checkpoint.size
              && acceptance.entryHash == log[acceptance.sequence - 1].entryHash {
      IssuedChainAccepted(log, checkpoint, acceptance, executedAt);
    }
  }
}
