// Witness evidence: an authorization is witnessed when enough of the witnesses a policy names have
// attested the same request before the execution.
module WitnessQuorum {
  import opened JsNumbers
  import opened Wrappers

  datatype Witness = Witness(witnessId: string, keyId: string, algorithm: string, publicKey: string)

  datatype Authorization = Authorization(authorizationId: string, intentHash: string, issuedAt: int,
                                         expiresAt: int, rest: string)

  datatype Request = Request(
    authorizationId: string, authorizationHash: Hash, intentHash: string, requestedAt: int, expiresAt: int)

  /** SHA-256 of canonical JSON, as an injective constructor for each kind of document. */
  datatype Hash =
    | PolicyHash(threshold: int, maxClockSkewSeconds: int, witnesses: seq<Witness>)
    | RequestHash(request: Request)
    | AuthorizationHash(authorization: Authorization)
    | OtherHash(text: string)

  /** `wellNamed`: schema, domain and algorithm are the ones of this version. */
  datatype Attestation = Attestation(
    wellNamed: bool, witnessId: string, keyId: string, requestHash: Hash, authorizationId: string,
    authorizationHash: Hash, intentHash: string, expiresAt: int, observedAt: int, signature: string)

  datatype Evidence = Evidence(wellNamed: bool, policyHash: Hash, requestNamed: bool, request: Request,
                               attestations: seq<Attestation>)

  /** `threshold` is None when it is not a number; the skew may be left out. */
  datatype Policy = Policy(wellNamed: bool, witnesses: seq<Witness>, threshold: Option<int>,
                           maxClockSkewSeconds: Option<int>)

  /** Signature verification, key fingerprints and trimming are total functions. */
  datatype Crypto = Crypto(verify: (Attestation, string) -> bool, fingerprint: string -> string, trim: string -> string)

  datatype Context = Context(
    evidence: Evidence, authorization: Authorization, acceptedAt: int, executedAt: int, policy: Policy)

  // ---------- The policy and the request ----------

  function Skew(policy: Policy): int {
    match policy.maxClockSkewSeconds case None => 60 case Some(n) => n
  }

  function Ids(witnesses: seq<Witness>): (ids: set<string>)
    ensures |ids| <= |witnesses|
  {
    if witnesses == [] then {} else Ids(witnesses[..|witnesses| - 1]) + {witnesses[|witnesses| - 1].witnessId}
  }

  function Fingerprints(crypto: Crypto, witnesses: seq<Witness>): (fingerprints: set<string>)
    ensures |fingerprints| <= |witnesses|
  {
    if witnesses == [] then {}
    else Fingerprints(crypto, witnesses[..|witnesses| - 1]) + {crypto.fingerprint(witnesses[|witnesses| - 1].publicKey)}
  }

  function Normalized(crypto: Crypto, witnesses: seq<Witness>): seq<Witness> {
    seq(|witnesses|, i requires 0 <= i < |witnesses| => witnesses[i].(publicKey := crypto.trim(witnesses[i].publicKey)))
  }

  predicate PolicyHolds(x: Context, crypto: Crypto) {
    var p := x.policy;
    && x.evidence.wellNamed && p.wellNamed
    && p.threshold.Some? && SafeInteger(p.threshold.value) && 2 <= p.threshold.value <= |p.witnesses| && SafeInteger(Skew(p))
    && |Ids(p.witnesses)| == |p.witnesses| && |Fingerprints(crypto, p.witnesses)| == |p.witnesses|
    && x.evidence.policyHash == PolicyHash(p.threshold.value, Skew(p), Normalized(crypto, p.witnesses))
  }

  predicate RequestHolds(x: Context) {
    var (r, a) := (x.evidence.request, x.authorization);
    && x.evidence.requestNamed
    && r == Request(a.authorizationId, AuthorizationHash(a), a.intentHash, x.acceptedAt, a.expiresAt)
    && a.issuedAt <= r.requestedAt <= a.expiresAt
  }

  // ---------- The quorum ----------

  /** The attestation is the witness's own, for this request, in time and correctly signed. */
  predicate Qualifies(w: Witness, a: Attestation, x: Context, crypto: Crypto) {
    var r := x.evidence.request;
    && w.algorithm == "Ed25519" && a.wellNamed && a.keyId == w.keyId
    && a.requestHash == RequestHash(r) && a.authorizationId == r.authorizationId
    && a.authorizationHash == r.authorizationHash && a.intentHash == r.intentHash && a.expiresAt == r.expiresAt
    && SafeInteger(a.observedAt) && a.observedAt >= r.requestedAt - Skew(x.policy)
    && a.observedAt <= r.expiresAt && a.observedAt <= x.executedAt
    && crypto.verify(a, w.publicKey)
  }

  predicate AttestsFor(w: Witness, a: Attestation, x: Context, crypto: Crypto) {
    a.witnessId == w.witnessId && Qualifies(w, a, x, crypto)
  }

  /** The policy witnesses with at least one qualifying attestation. */
  ghost function Attesting(attestations: seq<Attestation>, x: Context, crypto: Crypto): set<string> {
    set w, a | w in x.policy.witnesses && a in attestations && AttestsFor(w, a, x, crypto) :: w.witnessId
  }

  ghost predicate Accepts(x: Context, crypto: Crypto) {
    && PolicyHolds(x, crypto) && RequestHolds(x)
    && |Attesting(x.evidence.attestations, x, crypto)| >= x.policy.threshold.value
  }

  lemma IdsFresh(witnesses: seq<Witness>)
    requires |Ids(witnesses)| == |witnesses| && witnesses != []
    ensures var (front, last) := (witnesses[..|witnesses| - 1], witnesses[|witnesses| - 1]);
            |Ids(front)| == |front| && last.witnessId !in Ids(front)
  {
  }

  lemma {:induction false} IdMember(witnesses: seq<Witness>, i: nat)
    requires i < |witnesses|
    ensures witnesses[i].witnessId in Ids(witnesses)
  {
    if i < |witnesses| - 1 {
      IdMember(witnesses[..|witnesses| - 1], i);
    }
  }

  /** Distinct identifiers, said with indices. */
  lemma {:induction false} DistinctIds(witnesses: seq<Witness>, i: nat, j: nat)
    requires |Ids(witnesses)| == |witnesses| && i < |witnesses| && j < |witnesses|
    requires witnesses[i].witnessId == witnesses[j].witnessId
    ensures i == j
  {
    var front := witnesses[..|witnesses| - 1];
    IdsFresh(witnesses);
    if i < |front| && j < |front| {
      DistinctIds(front, i, j);
    } else if i < |front| {
      IdMember(front, i);
    } else if j < |front| {
      IdMember(front, j);
    }
  }

  lemma {:induction false} IdsMembers(witnesses: seq<Witness>)
    ensures forall id :: id in Ids(witnesses) <==> exists w :: w in witnesses && w.witnessId == id
  {
    if witnesses != [] {
      var (front, last) := (witnesses[..|witnesses| - 1], witnesses[|witnesses| - 1]);
      IdsMembers(front);
      assert witnesses == front + [last];
    }
  }

  /** `Array.find`. */
  method FindWitness(witnesses: seq<Witness>, witnessId: string) returns (found: Option<Witness>)
    ensures found.Some? ==> found.value in witnesses && found.value.witnessId == witnessId
    ensures found.None? ==> forall w :: w in witnesses ==> w.witnessId != witnessId
  {
    for i := 0 to |witnesses|
      invariant forall j :: 0 <= j < i ==> witnesses[j].witnessId != witnessId
    {
      if witnesses[i].witnessId == witnessId {
        return Some(witnesses[i]);
      }
    }
    found := None;
  }

  lemma OnlyNamed(witnesses: seq<Witness>, v: Witness, w: Witness)
    requires |Ids(witnesses)| == |witnesses| && v in witnesses && w in witnesses && v.witnessId == w.witnessId
    ensures v == w
  {
    var k, l :| 0 <= k < |witnesses| && witnesses[k] == v && 0 <= l < |witnesses| && witnesses[l] == w;
    DistinctIds(witnesses, k, l);
  }

  lemma AttestingNext(attestations: seq<Attestation>, i: nat, x: Context, crypto: Crypto, w: Witness)
    requires i < |attestations| && |Ids(x.policy.witnesses)| == |x.policy.witnesses|
    requires w in x.policy.witnesses && w.witnessId == attestations[i].witnessId
    ensures var before := Attesting(attestations[..i], x, crypto);
      Attesting(attestations[..i + 1], x, crypto)
      == if w.witnessId !in before && Qualifies(w, attestations[i], x, crypto) then before + {w.witnessId} else before
  {
    var (before, after, a) := (attestations[..i], attestations[..i + 1], attestations[i]);
    assert after == before + [a];
    forall v | v in x.policy.witnesses && v.witnessId == a.witnessId ensures v == w {
      OnlyNamed(x.policy.witnesses, v, w);
    }
    assert AttestsFor(w, a, x, crypto) <==> Qualifies(w, a, x, crypto);
  }

  lemma AttestingSkip(attestations: seq<Attestation>, i: nat, x: Context, crypto: Crypto)
    requires i < |attestations|
    requires forall w :: w in x.policy.witnesses ==> w.witnessId != attestations[i].witnessId
    ensures Attesting(attestations[..i + 1], x, crypto) == Attesting(attestations[..i], x, crypto)
  {
    assert attestations[..i + 1] == attestations[..i] + [attestations[i]];
  }

  /** The checks an attestation passes before its witness is added. */
  method CheckAttestation(w: Witness, attestation: Attestation, x: Context, crypto: Crypto) returns (ok: bool)
    ensures ok == Qualifies(w, attestation, x, crypto)
  {
    var request := x.evidence.request;
    if w.algorithm != "Ed25519" || !attestation.wellNamed {
      return false;
    }
    if attestation.keyId != w.keyId || attestation.requestHash != RequestHash(request)
       || attestation.authorizationId != request.authorizationId
       || attestation.authorizationHash != request.authorizationHash
       || attestation.intentHash != request.intentHash || attestation.expiresAt != request.expiresAt {
      return false;
    }
    if !SafeInteger(attestation.observedAt) || attestation.observedAt < request.requestedAt - Skew(x.policy)
       || attestation.observedAt > request.expiresAt || attestation.observedAt > x.executedAt {
      return false;
    }
    ok := crypto.verify(attestation, w.publicKey);
  }

  method CheckPolicy(x: Context, crypto: Crypto) returns (ok: bool)
    ensures ok == PolicyHolds(x, crypto)
  {
    var (evidence, witnesses) := (x.evidence, x.policy.witnesses);
    if !evidence.wellNamed || !x.policy.wellNamed || x.policy.threshold.None? {
      return false;
    }
    var threshold, skew := x.policy.threshold.value, Skew(x.policy);
    if !SafeInteger(threshold) || threshold < 2 || threshold > |witnesses| || !SafeInteger(skew) {
      return false;
    }
    if |Ids(witnesses)| != |witnesses| || |Fingerprints(crypto, witnesses)| != |witnesses| {
      return false;
    }
    ok := evidence.policyHash == PolicyHash(threshold, skew, Normalized(crypto, witnesses));
  }

  /** The loop that grows the set of witnesses. */
  method CollectWitnesses(x: Context, crypto: Crypto) returns (validWitnesses: set<string>)
    requires |Ids(x.policy.witnesses)| == |x.policy.witnesses|
    ensures validWitnesses == Attesting(x.evidence.attestations, x, crypto)
  {
    var attestations := x.evidence.attestations;
    validWitnesses := {};
    for i := 0 to |attestations|
      invariant validWitnesses == Attesting(attestations[..i], x, crypto)
    {
      var found := FindWitness(x.policy.witnesses, attestations[i].witnessId);
      if found.None? {
        AttestingSkip(attestations, i, x, crypto);
        continue;
      }
      var named := found.value;
      AttestingNext(attestations, i, x, crypto, named);
      if named.witnessId in validWitnesses {
        continue;
      }
      var qualifies := CheckAttestation(named, attestations[i], x, crypto);
      if qualifies {
        validWitnesses := validWitnesses + {named.witnessId};
      }
    }
    assert attestations[..|attestations|] == attestations;
  }

  method VerifyWitnessEvidence(x: Context, crypto: Crypto) returns (ok: bool)
    ensures ok <==> Accepts(x, crypto)
  {
    var policy := CheckPolicy(x, crypto);
    if !policy || !RequestHolds(x) {
      return false;
    }
    var validWitnesses := CollectWitnesses(x, crypto);
    ok := |validWitnesses| >= x.policy.threshold.value;
  }

  // ---------- What a quorum means ----------

  lemma {:induction false} Cardinality<T>(a: set<T>, b: set<T>)
    requires a <= b
    ensures |a| <= |b|
  {
    assert b == a + (b - a);
  }

  /** Only which attestations there are matters, not their order or how often each appears; and more of
      them never turn acceptance into rejection. */
  lemma OrderAndDuplicatesDoNotMatter(x: Context, y: Context, crypto: Crypto)
    requires y == x.(evidence := x.evidence.(attestations := y.evidence.attestations))
    requires forall a :: a in x.evidence.attestations ==> a in y.evidence.attestations
    ensures Accepts(x, crypto) ==> Accepts(y, crypto)
  {
    var (before, after) := (Attesting(x.evidence.attestations, x, crypto), Attesting(y.evidence.attestations, y, crypto));
    forall w, a | AttestsFor(w, a, x, crypto) ensures AttestsFor(w, a, y, crypto) {
    }
    assert before <= after;
    Cardinality(before, after);
  }

  lemma AttestingAreNamed(x: Context, crypto: Crypto)
    ensures Attesting(x.evidence.attestations, x, crypto) <= Ids(x.policy.witnesses)
  {
    IdsMembers(x.policy.witnesses);
  }

  /** Two accepted evidences under one policy share at least 2 * threshold - n witnesses. */
  lemma QuorumsOverlap(x: Context, y: Context, crypto: Crypto)
    requires Accepts(x, crypto) && Accepts(y, crypto) && x.policy == y.policy
    ensures |Attesting(x.evidence.attestations, x, crypto) * Attesting(y.evidence.attestations, y, crypto)|
         >= 2 * x.policy.threshold.value - |x.policy.witnesses|
  {
    var (a, b) := (Attesting(x.evidence.attestations, x, crypto), Attesting(y.evidence.attestations, y, crypto));
    AttestingAreNamed(x, crypto);
    AttestingAreNamed(y, crypto);
    assert |a + b| == |a| + |b| - |a * b|;
    Cardinality(a + b, Ids(x.policy.witnesses));
  }

  /** The witness signed, with its policy key, attestations for two different requests. */
  ghost predicate Equivocates(w: Witness, first: seq<Attestation>, second: seq<Attestation>, crypto: Crypto) {
    exists a, b ::
      && a in first && b in second && a.witnessId == w.witnessId == b.witnessId
      && crypto.verify(a, w.publicKey) && crypto.verify(b, w.publicKey) && a.requestHash != b.requestHash
  }

  ghost function Equivocators(witnesses: seq<Witness>, first: seq<Attestation>, second: seq<Attestation>,
                              crypto: Crypto)
    : set<string>
  {
    set w | w in witnesses && Equivocates(w, first, second, crypto) :: w.witnessId
  }

  lemma SharedWitnessSignedBoth(x: Context, y: Context, crypto: Crypto, id: string)
    requires |Ids(x.policy.witnesses)| == |x.policy.witnesses| && x.policy == y.policy
    requires x.evidence.request != y.evidence.request
    requires id in Attesting(x.evidence.attestations, x, crypto) && id in Attesting(y.evidence.attestations, y, crypto)
    ensures id in Equivocators(x.policy.witnesses, x.evidence.attestations, y.evidence.attestations, crypto)
  {
    var w, s :| w in x.policy.witnesses && s in x.evidence.attestations && AttestsFor(w, s, x, crypto) && w.witnessId == id;
    var v, t :| v in y.policy.witnesses && t in y.evidence.attestations && AttestsFor(v, t, y, crypto) && v.witnessId == id;
    var k :| 0 <= k < |x.policy.witnesses| && x.policy.witnesses[k] == v;
    var l :| 0 <= l < |x.policy.witnesses| && x.policy.witnesses[l] == w;
    DistinctIds(x.policy.witnesses, k, l);
    assert Equivocates(w, x.evidence.attestations, y.evidence.attestations, crypto);
  }

  /** Accepting two different requests under one policy takes that many witnesses who signed both. */
  lemma ConflictNeedsEquivocation(x: Context, y: Context, crypto: Crypto)
    requires Accepts(x, crypto) && Accepts(y, crypto) && x.policy == y.policy
    requires x.evidence.request != y.evidence.request
    ensures |Equivocators(x.policy.witnesses, x.evidence.attestations, y.evidence.attestations, crypto)|
         >= 2 * x.policy.threshold.value - |x.policy.witnesses|
  {
    var (a, b) := (Attesting(x.evidence.attestations, x, crypto), Attesting(y.evidence.attestations, y, crypto));
    var both := Equivocators(x.policy.witnesses, x.evidence.attestations, y.evidence.attestations, crypto);
    QuorumsOverlap(x, y, crypto);
    forall id | id in a && id in b ensures id in both {
      SharedWitnessSignedBoth(x, y, crypto, id);
    }
    Cardinality(a * b, both);
  }
}
