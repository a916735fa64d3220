// Witness evidence on the fields of policy, request and attestations: what each has to say to count.
module WitnessFields {
  import opened JsNumbers
  import opened WitnessQuorum
  import opened Wrappers

  lemma {:induction false} IdsMember(witnesses: seq<Witness>, id: string)
    ensures id in Ids(witnesses) <==> exists i :: 0 <= i < |witnesses| && witnesses[i].witnessId == id
  {
    if witnesses != [] {
      var (front, last) := (witnesses[..|witnesses| - 1], witnesses[|witnesses| - 1]);
      IdsMember(front, id);
      assert forall i :: 0 <= i < |front| ==> front[i] == witnesses[i];
    }
  }

  lemma {:induction false} IdsMatch(witnesses: seq<Witness>)
    ensures |Ids(witnesses)| == |witnesses|
       <==> forall i, j :: 0 <= i < j < |witnesses| ==> witnesses[i].witnessId != witnesses[j].witnessId
  {
    if witnesses != [] {
      var (front, last) := (witnesses[..|witnesses| - 1], witnesses[|witnesses| - 1]);
      IdsMatch(front);
      IdsMember(front, last.witnessId);
      assert forall i :: 0 <= i < |front| ==> front[i] == witnesses[i];
    }
  }

  lemma {:induction false} FingerprintsMember(crypto: Crypto, witnesses: seq<Witness>, f: string)
    ensures f in Fingerprints(crypto, witnesses)
       <==> exists i :: 0 <= i < |witnesses| && crypto.fingerprint(witnesses[i].publicKey) == f
  {
    if witnesses != [] {
      var (front, last) := (witnesses[..|witnesses| - 1], witnesses[|witnesses| - 1]);
      FingerprintsMember(crypto, front, f);
      assert forall i :: 0 <= i < |front| ==> front[i] == witnesses[i];
    }
  }

  lemma {:induction false} FingerprintsMatch(crypto: Crypto, witnesses: seq<Witness>)
    ensures |Fingerprints(crypto, witnesses)| == |witnesses|
       <==> forall i, j :: 0 <= i < j < |witnesses| ==>
              crypto.fingerprint(witnesses[i].publicKey) != crypto.fingerprint(witnesses[j].publicKey)
  {
    if witnesses != [] {
      var (front, last) := (witnesses[..|witnesses| - 1], witnesses[|witnesses| - 1]);
      FingerprintsMatch(crypto, front);
      FingerprintsMember(crypto, front, crypto.fingerprint(last.publicKey));
      assert forall i :: 0 <= i < |front| ==> front[i] == witnesses[i];
    }
  }

  /** The clock skew a policy allows; a minute where it says nothing. */
  lemma SkewExactly(p: Policy)
    ensures p.maxClockSkewSeconds.Some? ==> Skew(p) == p.maxClockSkewSeconds.value
    ensures p.maxClockSkewSeconds.None? ==> Skew(p) == 60
  {
  }

  /** The policy is the one the evidence names; its witnesses have different identifiers and different keys, and two
      of them at least must agree. */
  lemma PolicyOnFields(x: Context, crypto: Crypto)
    ensures PolicyHolds(x, crypto)
       <==> && x.evidence.wellNamed && x.policy.wellNamed && x.policy.threshold.Some?
            && 2 <= x.policy.threshold.value <= |x.policy.witnesses|
            && x.policy.threshold.value < 9007199254740992
            && -9007199254740992 < Skew(x.policy) < 9007199254740992
            && (forall i, j :: 0 <= i < j < |x.policy.witnesses| ==>
                  x.policy.witnesses[i].witnessId != x.policy.witnesses[j].witnessId)
            && (forall i, j :: 0 <= i < j < |x.policy.witnesses| ==>
                  crypto.fingerprint(x.policy.witnesses[i].publicKey) != crypto.fingerprint(x.policy.witnesses[j].publicKey))
            && x.evidence.policyHash
            == PolicyHash(x.policy.threshold.value, Skew(x.policy), Normalized(crypto, x.policy.witnesses))
  {
    IdsMatch(x.policy.witnesses);
    FingerprintsMatch(crypto, x.policy.witnesses);
  }

  /** The hashed policy lists the witnesses as they are, but for the white space around their keys. */
  lemma NormalizedExactly(crypto: Crypto, witnesses: seq<Witness>, i: nat)
    requires i < |witnesses|
    ensures var w := Normalized(crypto, witnesses)[i];
      && |Normalized(crypto, witnesses)| == |witnesses| && w.witnessId == witnesses[i].witnessId
      && w.keyId == witnesses[i].keyId && w.algorithm == witnesses[i].algorithm
      && w.publicKey == crypto.trim(witnesses[i].publicKey)
  {
  }

  /** The request is about this authorization, made at its acceptance, inside its life. */
  lemma RequestOnFields(x: Context)
    ensures RequestHolds(x)
       <==> && x.evidence.requestNamed
            && x.evidence.request.authorizationId == x.authorization.authorizationId
            && x.evidence.request.authorizationHash == AuthorizationHash(x.authorization)
            && x.evidence.request.intentHash == x.authorization.intentHash
            && x.evidence.request.requestedAt == x.acceptedAt
            && x.evidence.request.expiresAt == x.authorization.expiresAt
            && x.authorization.issuedAt <= x.acceptedAt <= x.authorization.expiresAt
  {
  }

  /** The attestation repeats the request under the witness's own identifier, key and algorithm, was made in time and
      before the execution, and its signature verifies. */
  predicate QualifiesAs(w: Witness, a: Attestation, x: Context, crypto: Crypto) {
    && a.witnessId == w.witnessId && a.keyId == w.keyId && w.algorithm == "Ed25519" && a.wellNamed
    && a.requestHash == RequestHash(x.evidence.request)
    && a.authorizationId == x.authorization.authorizationId
    && a.authorizationHash == AuthorizationHash(x.authorization)
    && a.intentHash == x.authorization.intentHash && a.expiresAt == x.authorization.expiresAt
    && -9007199254740992 < a.observedAt < 9007199254740992
    && x.acceptedAt - Skew(x.policy) <= a.observedAt <= x.authorization.expiresAt
    && a.observedAt <= x.executedAt && crypto.verify(a, w.publicKey)
  }

  /** Under a request that holds, these are the attestations that count. */
  lemma QualifiesOnFields(w: Witness, a: Attestation, x: Context, crypto: Crypto)
    requires RequestHolds(x)
    ensures AttestsFor(w, a, x, crypto) <==> QualifiesAs(w, a, x, crypto)
  {
  }

  /** A witness of the policy with an attestation that counts. */
  ghost predicate Attested(id: string, x: Context, crypto: Crypto) {
    exists w, a :: && w in x.policy.witnesses && a in x.evidence.attestations && w.witnessId == id
                   && QualifiesAs(w, a, x, crypto)
  }

  lemma AttestingExactly(id: string, x: Context, crypto: Crypto)
    requires RequestHolds(x)
    ensures id in Attesting(x.evidence.attestations, x, crypto) <==> Attested(id, x, crypto)
  {
    forall w, a ensures AttestsFor(w, a, x, crypto) <==> QualifiesAs(w, a, x, crypto) {
      QualifiesOnFields(w, a, x, crypto);
    }
  }

  /** Evidence is accepted exactly when policy and request hold and as many different witnesses are attested as the
      policy asks for. */
  lemma AcceptedExactly(x: Context, crypto: Crypto, named: set<string>)
    ensures Accepts(x, crypto) ==> PolicyHolds(x, crypto) && RequestHolds(x)
    ensures PolicyHolds(x, crypto) && RequestHolds(x) && (forall id :: id in named <==> Attested(id, x, crypto)) ==>
              (Accepts(x, crypto) <==> x.policy.threshold.value <= |named|)
  {
    if PolicyHolds(x, crypto) && RequestHolds(x) && forall id :: id in named <==> Attested(id, x, crypto) {
      forall id ensures id in named <==> id in Attesting(x.evidence.attestations, x, crypto) {
        AttestingExactly(id, x, crypto);
      }
      assert named == Attesting(x.evidence.attestations, x, crypto);
    }
  }
}
