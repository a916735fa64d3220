// The append-only authorization log of the issuer, as one process keeps it: the hash-chained
// entries, the lookup by authorization, and the Merkle index.
module TransparencyLog {
  import opened Wrappers
  import opened Digests
  import opened MerkleTree
  import opened MerkleLog

  datatype LogEntry = LogEntry(
    sequence: nat,
    authorizationHash: Digest,
    acceptedAt: int,
    previousEntryHash: Option<Digest>,
    entryHash: Digest)
  {
    predicate SelfConsistent() {
      entryHash == LogEntryDigest(sequence, authorizationHash, acceptedAt, previousEntryHash)
    }
  }

  ghost function EntryHashes(log: seq<LogEntry>): (hashes: seq<Digest>)
    ensures |hashes| == |log|
  {
    seq(|log|, i requires 0 <= i < |log| => log[i].entryHash)
  }

  /** Entry `i` is the next link after the one before it. */
  ghost predicate LinkedAt(log: seq<LogEntry>, i: nat)
    requires i < |log|
  {
    && log[i].SelfConsistent()
    && log[i].sequence == i + 1
    && log[i].previousEntryHash == if i == 0 then None else Some(log[i - 1].entryHash)
  }

  ghost predicate Chained(log: seq<LogEntry>) {
    forall i {:trigger LinkedAt(log, i)} :: 0 <= i < |log| ==> LinkedAt(log, i)
  }

  /** Every entry is found by its authorization, and by nothing else: none is logged twice. */
  ghost predicate LookupExact(log: seq<LogEntry>, lookup: map<Digest, LogEntry>) {
    && (forall i :: 0 <= i < |log| ==>
          log[i].authorizationHash in lookup && lookup[log[i].authorizationHash] == log[i])
    && (forall h :: h in lookup ==> lookup[h] in log && lookup[h].authorizationHash == h)
  }

  ghost predicate LogInvariant(log: seq<LogEntry>, lookup: map<Digest, LogEntry>, nodes: Index) {
    Chained(log) && LookupExact(log, lookup) && IndexExact(EntryHashes(log), nodes)
  }

  function NextEntry(log: seq<LogEntry>, authorizationHash: Digest, acceptedAt: int): (entry: LogEntry)
    ensures entry.SelfConsistent()
  {
    var sequence := |log| + 1;
    var previousEntryHash := if log == [] then None else Some(log[|log| - 1].entryHash);
    LogEntry(sequence, authorizationHash, acceptedAt, previousEntryHash,
             LogEntryDigest(sequence, authorizationHash, acceptedAt, previousEntryHash))
  }

  lemma LookupExtended(log: seq<LogEntry>, lookup: map<Digest, LogEntry>, entry: LogEntry)
    requires LookupExact(log, lookup) && entry.authorizationHash !in lookup
    ensures LookupExact(log + [entry], lookup[entry.authorizationHash := entry])
  {
    assert (log + [entry])[|log|] == entry;
  }

  lemma LogExtended(log: seq<LogEntry>, lookup: map<Digest, LogEntry>, entry: LogEntry, next: Index)
    requires Chained(log) && LookupExact(log, lookup)
    requires entry == NextEntry(log, entry.authorizationHash, entry.acceptedAt)
    requires entry.authorizationHash !in lookup
    requires IndexExact(EntryHashes(log) + [entry.entryHash], next)
    ensures LogInvariant(log + [entry], lookup[entry.authorizationHash := entry], next)
  {
    LookupExtended(log, lookup, entry);
    var longer := log + [entry];
    forall i | 0 <= i < |longer| ensures LinkedAt(longer, i) {
      assert i < |log| ==> LinkedAt(log, i);
    }
    assert EntryHashes(log + [entry]) == EntryHashes(log) + [entry.entryHash];
  }

  /** Sequence numbers without a gap, each entry chained to the one before it under its own hash, and every authorization
      logged once and found under its hash. */
  lemma InvariantOnFields(log: seq<LogEntry>, lookup: map<Digest, LogEntry>, nodes: Index, i: nat, j: nat, h: Digest)
    requires LogInvariant(log, lookup, nodes) && i < |log| && j < |log|
    ensures log[i].sequence == i + 1
    ensures log[i].previousEntryHash == if i == 0 then None else Some(log[i - 1].entryHash)
    ensures log[i].entryHash
         == LogEntryDigest(log[i].sequence, log[i].authorizationHash, log[i].acceptedAt, log[i].previousEntryHash)
    ensures log[i].authorizationHash == log[j].authorizationHash ==> i == j
    ensures log[i].authorizationHash in lookup && lookup[log[i].authorizationHash] == log[i]
    ensures h in lookup ==> lookup[h] in log && lookup[h].authorizationHash == h
  {
    assert LinkedAt(log, i) && LinkedAt(log, j);
  }

  datatype Snapshot = Snapshot(size: nat, headEntryHash: Digest, merkleRoot: Digest, proof: seq<Step>)

  datatype SnapshotError = NotInLocalLog | NotInCheckpoint

  /** A checkpoint of `size` entries and the proof of one of them, read off the whole log. */
  ghost function ScannedSnapshot(log: seq<LogEntry>, sequence: nat, size: nat): Snapshot
    requires 1 <= sequence <= size <= |log|
  {
    Snapshot(size, log[size - 1].entryHash,
             TreeRoot(EntryHashes(log)[..size]), AuditPath(EntryHashes(log)[..size], sequence - 1))
  }

  lemma SnapshotFromIndex(log: seq<LogEntry>, nodes: Index, sequence: nat, size: nat, proof: Option<MerkleProof>)
    requires IndexExact(EntryHashes(log), nodes) && 1 <= sequence <= size <= |log|
    requires proof == CreateMerkleProof(log[sequence - 1].entryHash, sequence, size, nodes)
    ensures proof.Some?
    ensures ScannedSnapshot(log, sequence, size)
         == Snapshot(size, log[size - 1].entryHash, proof.value.root, proof.value.path)
  {
    CreateProofCorrect(EntryHashes(log), nodes, sequence, size);
  }

  lemma EmptyIndexExact()
    ensures IndexExact([], map[])
  {
    forall range ensures NodeExact([], map[], range) {
      assert Pow2(range.level) >= 1;
    }
  }

  class AuthorizationLog {
    var authorizationLog: seq<LogEntry>
    var logByAuthorizationHash: map<Digest, LogEntry>
    var merkleNodes: Index

    ghost predicate Valid()
      reads this
    {
      LogInvariant(authorizationLog, logByAuthorizationHash, merkleNodes)
    }

    constructor ()
      ensures Valid() && authorizationLog == []
    {
      authorizationLog := [];
      logByAuthorizationHash := map[];
      merkleNodes := map[];
      new;
      EmptyIndexExact();
    }

    /** Appends one authorization, once: a repeated authorization returns its first entry. */
    method AppendAuthorizationLog(authorizationHash: Digest, acceptedAt: int) returns (entry: LogEntry)
      requires Valid()
      modifies this
      ensures Valid()
      ensures entry in authorizationLog && entry.authorizationHash == authorizationHash
      ensures authorizationHash in old(logByAuthorizationHash) ==>
        unchanged(this) && entry == logByAuthorizationHash[authorizationHash]
      ensures authorizationHash !in old(logByAuthorizationHash) ==>
        && authorizationLog == old(authorizationLog) + [entry]
        && entry.acceptedAt == acceptedAt && entry.sequence == |old(authorizationLog)| + 1
        && entry.previousEntryHash == (if old(authorizationLog) == [] then None
                                       else Some(old(authorizationLog)[|old(authorizationLog)| - 1].entryHash))
        && entry.entryHash == LogEntryDigest(entry.sequence, authorizationHash, acceptedAt, entry.previousEntryHash)
      ensures forall range :: range in old(merkleNodes) ==>
        range in merkleNodes && merkleNodes[range] == old(merkleNodes)[range]
    {
      if authorizationHash in logByAuthorizationHash {
        return logByAuthorizationHash[authorizationHash];
      }
      entry := NextEntry(authorizationLog, authorizationHash, acceptedAt);
      var next := AppendToIndex(|authorizationLog| + 1, entry.entryHash, merkleNodes, EntryHashes(authorizationLog));
      LogExtended(authorizationLog, logByAuthorizationHash, entry, next.value);
      authorizationLog := authorizationLog + [entry];
      logByAuthorizationHash := logByAuthorizationHash[authorizationHash := entry];
      merkleNodes := next.value;
    }

    /** The inclusion proof for an accepted entry at the current or a historical checkpoint size. */
    method GetAuthorizationMerkleSnapshot(sequence: int, entryHash: Digest, size: Option<int>)
      returns (r: Result<Snapshot, SnapshotError>)
      requires Valid()
      ensures r == Failure(NotInLocalLog)
         <==> !(1 <= sequence <= |authorizationLog|) || authorizationLog[sequence - 1].entryHash != entryHash
      ensures var checkpointSize := if size.Some? then size.value else |authorizationLog|;
        r != Failure(NotInLocalLog) ==>
          r == if sequence <= checkpointSize <= |authorizationLog|
               then Success(ScannedSnapshot(authorizationLog, sequence, checkpointSize))
               else Failure(NotInCheckpoint)
    {
      if sequence < 1 || |authorizationLog| < sequence || authorizationLog[sequence - 1].entryHash != entryHash {
        return Failure(NotInLocalLog);
      }
      var checkpointSize := if size.Some? then size.value else |authorizationLog|;
      if checkpointSize < sequence || |authorizationLog| < checkpointSize {
        return Failure(NotInCheckpoint);
      }
      var proof := CreateMerkleProof(entryHash, sequence, checkpointSize, merkleNodes);
      SnapshotFromIndex(authorizationLog, merkleNodes, sequence, checkpointSize, proof);
      r := Success(Snapshot(checkpointSize, authorizationLog[checkpointSize - 1].entryHash,
                            proof.value.root, proof.value.path));
    }
  }
}
